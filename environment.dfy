/**
 * The variable store (cmsh/classes/Environment.js and the Environment class of
 * shell.js) and its `$NAME` / `${NAME}` substitution.
 *
 * The substitution is the single `replace` pass of the regular expression
 * `\$((\{[^}]*\})|(\S*))`, written out as a scan: `${` up to the first `}` is a
 * braced reference, otherwise the longest run of non-whitespace after `$` is the
 * name. A replacement is inserted as it is and never scanned again.
 */
module Env {
  import opened Wrappers
  import opened Dict
  import opened Text

  /** The computed key of the cmsh environment. */
  const RandomKey := "RANDOM"

  /** `Math.floor(Math.random() * Math.floor(32767))` lies in [0, RandomBound). */
  const RandomBound := 32767

  /**
   * The value a reference resolves to: a line-local assignment first, then the
   * environment (`has`, then `get`). `draw` is the number RANDOM yields in the
   * cmsh environment, None for the shell.js environment, which has no RANDOM.
   */
  function Lookup(name: string, local: Dict<string>, env: Dict<string>, draw: Option<nat>): Option<string> {
    if local.Has(name) then Some(local.vals[name])
    else if draw.Some? && name == RandomKey then Some(NatToString(draw.value))
    else env.Get(name)
  }

  /**
   * The replacement of one match. `braced` is the name between the braces of a
   * `${...}` match, `group` is everything the match took after `$` (`{...}` or
   * the bare word). The callback first tries the braced name, then the whole
   * group, then keeps the matched text.
   */
  function Replacement(braced: Option<string>, group: string, local: Dict<string>, env: Dict<string>, draw: Option<nat>): string {
    var byName := if braced.Some? then Lookup(braced.value, local, env, draw) else None;
    var byGroup := if group != [] then Lookup(group, local, env, draw) else None;
    if byName.Some? then byName.value
    else if byGroup.Some? then byGroup.value
    else "$" + group
  }

  /** The index of the first `}` in s, if any. */
  function CloseBrace(s: string): (j: Option<nat>)
    ensures j.Some? ==> j.value < |s| && s[j.value] == '}' && '}' !in s[..j.value]
    ensures j.None? ==> '}' !in s
    decreases |s|
  {
    if s == [] then None
    else if s[0] == '}' then Some(0)
    else
      var j := CloseBrace(s[1..]);
      if j.Some? then
        assert s[..j.value + 1] == [s[0]] + s[1..][..j.value];
        Some(j.value + 1)
      else None
  }

  /** The length of the longest prefix of s without whitespace (`\S*`). */
  function WordLength(s: string): (n: nat)
    ensures n <= |s|
    ensures forall i :: 0 <= i < n ==> !IsWhitespace(s[i])
    ensures n < |s| ==> IsWhitespace(s[n])
    decreases |s|
  {
    if s == [] || IsWhitespace(s[0]) then 0 else 1 + WordLength(s[1..])
  }

  /** `str.replace(/\$((\{[^}]*\})|(\S*))/g, ...)` */
  function Expand(s: string, local: Dict<string>, env: Dict<string>, draw: Option<nat>): string
    decreases |s|
  {
    if s == [] then []
    else if s[0] != '$' then [s[0]] + Expand(s[1..], local, env, draw)
    else
      var rest := s[1..];
      var close := if rest != [] && rest[0] == '{' then CloseBrace(rest) else None;
      if close.Some? then
        var j := close.value;
        Replacement(Some(rest[1..j]), rest[..j + 1], local, env, draw) + Expand(rest[j + 1..], local, env, draw)
      else
        var n := WordLength(rest);
        Replacement(None, rest[..n], local, env, draw) + Expand(rest[n..], local, env, draw)
  }

  /** Text that holds no `$` reaches the output unchanged and is not looked at again. */
  lemma {:induction false} ExpandLiteralPrefix(a: string, b: string, local: Dict<string>, env: Dict<string>, draw: Option<nat>)
    requires '$' !in a
    ensures Expand(a + b, local, env, draw) == a + Expand(b, local, env, draw)
    decreases |a|
  {
    if a != [] {
      assert (a + b)[0] == a[0] && (a + b)[1..] == a[1..] + b;
      ExpandLiteralPrefix(a[1..], b, local, env, draw);
      assert [a[0]] + a[1..] == a;
    } else {
      assert a + b == b;
    }
  }

  /** A `$` followed by whitespace or by the end of the string stays a `$`. */
  lemma LoneDollar(rest: string, local: Dict<string>, env: Dict<string>, draw: Option<nat>)
    requires rest == [] || IsWhitespace(rest[0])
    ensures Expand("$" + rest, local, env, draw) == "$" + Expand(rest, local, env, draw)
  {
    var s := "$" + rest;
    assert s[1..] == rest;
    assert WordLength(rest) == 0;
    assert rest[0..] == rest;
  }

  /**
   * `${NAME}` becomes the line-local value of NAME if there is one, else the
   * environment's; when neither exists (nor a variable literally named `{NAME}`)
   * the reference is kept as written. The text after the `}` is scanned on.
   */
  lemma BracedReference(name: string, rest: string, local: Dict<string>, env: Dict<string>, draw: Option<nat>)
    requires '}' !in name
    ensures var r := Expand("${" + name + "}" + rest, local, env, draw);
      && (local.Has(name) ==> r == local.vals[name] + Expand(rest, local, env, draw))
      && (!local.Has(name) && env.Has(name) && (draw.None? || name != RandomKey) ==>
            r == env.vals[name] + Expand(rest, local, env, draw))
      && (Lookup(name, local, env, draw).None? && Lookup("{" + name + "}", local, env, draw).None? ==>
            r == "${" + name + "}" + Expand(rest, local, env, draw))
  {
    BracedMatch(name, rest, local, env, draw);
    BracedReplacement(name, local, env, draw);
  }

  /** The replacement of `${NAME}`: the local value, else the environment's, else the text as written. */
  lemma BracedReplacement(name: string, local: Dict<string>, env: Dict<string>, draw: Option<nat>)
    ensures var r := Replacement(Some(name), "{" + name + "}", local, env, draw);
      && (local.Has(name) ==> r == local.vals[name])
      && (!local.Has(name) && env.Has(name) && (draw.None? || name != RandomKey) ==> r == env.vals[name])
      && (Lookup(name, local, env, draw).None? && Lookup("{" + name + "}", local, env, draw).None? ==> r == "${" + name + "}")
  {
    assert "$" + ("{" + name + "}") == "${" + name + "}";
  }

  /** `${NAME}` is one match: its braced name is NAME and its group is `{NAME}`. */
  lemma BracedMatch(name: string, rest: string, local: Dict<string>, env: Dict<string>, draw: Option<nat>)
    requires '}' !in name
    ensures Expand("${" + name + "}" + rest, local, env, draw)
         == Replacement(Some(name), "{" + name + "}", local, env, draw) + Expand(rest, local, env, draw)
  {
    var s := "${" + name + "}" + rest;
    var tail := s[1..];
    assert tail == "{" + name + "}" + rest;
    var j := |name| + 1;
    assert tail[1..] == name + "}" + rest;
    CloseBraceAt(name, rest);
    assert CloseBrace(tail) == Some(j);
    assert tail[1..j] == name;
    assert tail[..j + 1] == "{" + name + "}";
    assert tail[j + 1..] == rest;
  }

  lemma {:induction false} CloseBraceAt(name: string, rest: string)
    requires '}' !in name
    ensures CloseBrace("{" + name + "}" + rest) == Some(|name| + 1)
  {
    var t := "{" + name + "}" + rest;
    assert t[1..] == name + "}" + rest;
    CloseBraceAfter(name, rest);
  }

  lemma {:induction false} CloseBraceAfter(name: string, rest: string)
    requires '}' !in name
    ensures CloseBrace(name + "}" + rest) == Some(|name|)
    decreases |name|
  {
    if name != [] {
      assert (name + "}" + rest)[1..] == name[1..] + "}" + rest;
      CloseBraceAfter(name[1..], rest);
    } else {
      assert name + "}" + rest == "}" + rest;
    }
  }

  /**
   * Without braces the name is the whole run of non-whitespace after `$`, so
   * `$X-2` refers to a variable named `X-2`; an unknown name is kept as written.
   */
  lemma GreedyName(word: string, rest: string, local: Dict<string>, env: Dict<string>, draw: Option<nat>)
    requires word != []
    requires forall i :: 0 <= i < |word| ==> !IsWhitespace(word[i])
    requires rest == [] || IsWhitespace(rest[0])
    requires word[0] != '{'
    ensures var r := Expand("$" + word + rest, local, env, draw);
      && (Lookup(word, local, env, draw).Some? ==>
            r == Lookup(word, local, env, draw).value + Expand(rest, local, env, draw))
      && (Lookup(word, local, env, draw).None? ==> r == "$" + word + Expand(rest, local, env, draw))
  {
    var s := "$" + word + rest;
    var tail := s[1..];
    assert tail == word + rest;
    assert tail[0] == word[0];
    WordLengthOf(word, rest);
    assert tail[..|word|] == word && tail[|word|..] == rest;
  }

  lemma {:induction false} WordLengthOf(word: string, rest: string)
    requires forall i :: 0 <= i < |word| ==> !IsWhitespace(word[i])
    requires rest == [] || IsWhitespace(rest[0])
    ensures WordLength(word + rest) == |word|
    decreases |word|
  {
    if word != [] {
      assert (word + rest)[1..] == word[1..] + rest;
      WordLengthOf(word[1..], rest);
    } else {
      assert word + rest == rest;
    }
  }

  /** The value a reference resolves to is inserted verbatim, never expanded again. */
  lemma NoRescan(local: Dict<string>, env: Dict<string>, draw: Option<nat>)
    requires local == Empty<string>().Put("X", "$Y")
    requires env == Empty<string>().Put("Y", "1")
    ensures Expand("$X", local, env, draw) == "$Y"
  {
    GreedyName("X", "", local, env, draw);
    assert "$" + "X" + "" == "$X";
  }

  /**
   * The line `X=1 Y="$X-2"` leaves Y holding `$X-2`: the name after `$` is the
   * whole word `X-2`, which is not a variable.
   */
  lemma GreedyDash(env: Dict<string>, draw: Option<nat>)
    requires !env.Has("X-2") && draw.Some?
    ensures Expand("$X-2", Empty<string>().Put("X", "1"), env, draw) == "$X-2"
  {
    GreedyName("X-2", "", Empty<string>().Put("X", "1"), env, draw);
    assert "$" + "X-2" + "" == "$X-2";
  }

  /** `key=value` lines joined by newlines, in key order. */
  function Render(d: Dict<string>): string
    requires d.Valid()
  {
    Join(Lines(d.keys, d.vals), "\n")
  }

  function Lines(keys: seq<string>, vals: map<string, string>): (ls: seq<string>)
    requires forall i :: 0 <= i < |keys| ==> keys[i] in vals
    ensures |ls| == |keys|
    ensures forall i :: 0 <= i < |ls| ==> ls[i] == keys[i] + "=" + vals[keys[i]]
  {
    seq(|keys|, i requires 0 <= i < |keys| => keys[i] + "=" + vals[keys[i]])
  }

  /** Setting a new key adds its line after all the others. */
  lemma RenderNewKey(d: Dict<string>, k: string, v: string)
    requires d.Valid() && !d.Has(k)
    ensures Render(d.Put(k, v)) == if d.keys == [] then k + "=" + v else Render(d) + "\n" + (k + "=" + v)
  {
    var ls := Lines(d.keys, d.vals);
    LinesSnoc(d, k, v);
    assert Render(d.Put(k, v)) == Join(ls + [k + "=" + v], "\n");
    JoinSnoc(ls, k + "=" + v, "\n");
    assert d.keys == [] <==> ls == [];
  }

  lemma LinesSnoc(d: Dict<string>, k: string, v: string)
    requires d.Valid() && !d.Has(k)
    ensures d.Put(k, v).Valid()
    ensures Lines(d.Put(k, v).keys, d.Put(k, v).vals) == Lines(d.keys, d.vals) + [k + "=" + v]
  {
    var e := d.Put(k, v);
    assert e.keys == d.keys + [k];
    var old_ := Lines(d.keys, d.vals);
    var new_ := Lines(e.keys, e.vals);
    forall i | 0 <= i < |new_| ensures new_[i] == (old_ + [k + "=" + v])[i] {
      if i < |d.keys| {
        assert e.keys[i] == d.keys[i] != k;
      }
    }
  }

  /**
   * Listing the environment: one line per key, in key order, when no key or
   * value contains a newline.
   */
  lemma RenderLines(d: Dict<string>)
    requires d.Valid() && d.keys != []
    requires forall k :: k in d.vals ==> '\n' !in k && '\n' !in d.vals[k]
    ensures Split(Render(d), '\n') == Lines(d.keys, d.vals)
  {
    var ls := Lines(d.keys, d.vals);
    forall i | 0 <= i < |ls| ensures '\n' !in ls[i] {
      assert d.keys[i] in d.vals;
    }
    SplitJoin(ls, '\n');
  }

  /** The variable store. */
  class Environment {
    var values: Dict<string>
    /** Whether `RANDOM` is a computed key (the cmsh store) or not (the shell.js store). */
    const randomKey: bool

    ghost predicate Valid()
      reads this
    {
      values.Valid()
    }

    /** Wraps every initial value; the key order is that of `initial`. */
    constructor (initial: Dict<string>, randomKey: bool)
      requires initial.Valid()
      ensures Valid() && values == initial && this.randomKey == randomKey
    {
      values := initial;
      this.randomKey := randomKey;
    }

    /** `has(key)` */
    predicate Has(key: string)
      reads this
    {
      (randomKey && key == RandomKey) || values.Has(key)
    }

    /**
     * `get(key)`: RANDOM yields some number below RandomBound (chosen here
     * without further constraint, as `Math.random` does); any other key yields
     * its stored value. An unset key dereferences `undefined` in the source,
     * so `has(key)` is required.
     */
    method Get(key: string) returns (v: string)
      requires Has(key)
      ensures randomKey && key == RandomKey ==> exists n :: 0 <= n < RandomBound && v == NatToString(n)
      ensures !(randomKey && key == RandomKey) ==> key in values.vals && v == values.vals[key]
    {
      if randomKey && key == RandomKey {
        var n :| 0 <= n < RandomBound;
        v := NatToString(n);
      } else {
        v := values.vals[key];
      }
    }

    /** `set(key, value)` */
    method Set(key: string, value: string)
      requires Valid()
      modifies this
      ensures Valid()
      ensures values == old(values).Put(key, value)
    {
      values := values.Put(key, value);
    }

    /** `toString()` */
    function ToString(): string
      reads this
      requires Valid()
    {
      Render(values)
    }

    /** `applyOnString(str, localVariables)`, with `draw` the number RANDOM yields. */
    function ApplyOnString(str: string, local: Dict<string>, draw: nat): string
      reads this
    {
      Expand(str, local, values, if randomKey then Some(draw) else None)
    }
  }
}
