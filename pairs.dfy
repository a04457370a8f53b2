/** Two lists of the same length whose elements at each index are related. */
module Pairs {
  /** `f` relates the elements at every index of `xs` and `ys`. */
  ghost predicate All<A, B>(f: (A, B) -> bool, xs: seq<A>, ys: seq<B>)
    decreases |xs|
  {
    |xs| == |ys| && (xs == [] || (All(f, xs[..|xs| - 1], ys[..|ys| - 1]) && f(xs[|xs| - 1], ys[|ys| - 1])))
  }

  lemma {:induction false} Each<A, B>(f: (A, B) -> bool, xs: seq<A>, ys: seq<B>)
    requires All(f, xs, ys)
    ensures |xs| == |ys| && forall j :: 0 <= j < |xs| ==> f(xs[j], ys[j])
    decreases |xs|
  {
    if xs != [] {
      var n := |xs| - 1;
      Each(f, xs[..n], ys[..n]);
      assert forall j :: 0 <= j < n ==> xs[..n][j] == xs[j] && ys[..n][j] == ys[j];
    }
  }

  lemma {:induction false} Weaken<A, B>(f: (A, B) -> bool, g: (A, B) -> bool, xs: seq<A>, ys: seq<B>)
    requires All(f, xs, ys) && forall x, y :: f(x, y) ==> g(x, y)
    ensures All(g, xs, ys)
    decreases |xs|
  {
    if xs != [] {
      Weaken(f, g, xs[..|xs| - 1], ys[..|ys| - 1]);
    }
  }

  /** One more pair, taken from the last element of `ys`. */
  lemma Extend<A, B>(f: (A, B) -> bool, xs: seq<A>, ys: seq<B>, x: A)
    requires |xs| + 1 == |ys| && All(f, xs, ys[..|xs|]) && f(x, ys[|xs|])
    ensures All(f, xs + [x], ys)
  {
    assert (xs + [x])[..|xs|] == xs;
  }
}
