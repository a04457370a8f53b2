/**
 * The generic driver the cmsh tokenizer runs on (cmsh/classes/StateMachine.js):
 * a table of handlers indexed by state name, the current state and the data
 * carried into it.
 */
module Machine {

  /** What a handler returns: a bare state name, or the pair `[name, data]`. */
  datatype Transition<S, D> = Bare(name: S) | WithData(name: S, data: D)

  /**
   * The data a transition carries: the second element of the pair, or a fresh
   * `{}` (here `empty`) when the handler returned a bare name.
   */
  function Carried<S, D>(t: Transition<S, D>, empty: D): D {
    if t.WithData? then t.data else empty
  }

  /** The state and data after feeding each token to the machine in turn. */
  function Run<S, T, D>(handlers: (S, T, D) -> Transition<S, D>, empty: D, state: S, data: D, tokens: seq<T>): (S, D)
    decreases |tokens|
  {
    if tokens == [] then (state, data)
    else
      var r := handlers(state, tokens[0], data);
      Run(handlers, empty, r.name, Carried(r, empty), tokens[1..])
  }

  /** Feeding two token sequences one after the other is feeding their concatenation. */
  lemma {:induction false} RunAppend<S, T, D>(handlers: (S, T, D) -> Transition<S, D>, empty: D, state: S, data: D, a: seq<T>, b: seq<T>)
    ensures var (s1, d1) := Run(handlers, empty, state, data, a);
      Run(handlers, empty, state, data, a + b) == Run(handlers, empty, s1, d1, b)
    decreases |a|
  {
    if a == [] {
      assert a + b == b;
    } else {
      var r := handlers(state, a[0], data);
      assert (a + b)[0] == a[0] && (a + b)[1..] == a[1..] + b;
      RunAppend(handlers, empty, r.name, Carried(r, empty), a[1..], b);
    }
  }

  /** Feeding one more token runs exactly the current handler once on it. */
  lemma RunSnoc<S, T, D>(handlers: (S, T, D) -> Transition<S, D>, empty: D, state: S, data: D, a: seq<T>, t: T)
    ensures var (s1, d1) := Run(handlers, empty, state, data, a);
      var r := handlers(s1, t, d1);
      Run(handlers, empty, state, data, a + [t]) == (r.name, Carried(r, empty))
  {
    RunAppend(handlers, empty, state, data, a, [t]);
  }

  class StateMachine<S, T, D> {
    /** `states`: the handler of each state name. */
    const handlers: (S, T, D) -> Transition<S, D>
    /** The fresh `{}` a bare transition carries. */
    const empty: D
    var state: S
    var data: D

    /**
     * The initial state is the name `initialState` gives (itself or its first
     * element); the initial data is its second element when there is one,
     * otherwise `{}`.
     */
    constructor (handlers: (S, T, D) -> Transition<S, D>, initialState: Transition<S, D>, empty: D)
      ensures this.handlers == handlers && this.empty == empty
      ensures state == initialState.name && data == Carried(initialState, empty)
    {
      this.handlers := handlers;
      this.empty := empty;
      state := initialState.name;
      data := Carried(initialState, empty);
    }

    /**
     * `next(token)`: calls the current handler once, then moves to the state it
     * names with the data it returned, or with `{}` when it returned a bare name.
     */
    method Next(token: T)
      modifies this
      ensures var r := handlers(old(state), token, old(data));
        state == r.name && data == Carried(r, empty)
      ensures (state, data) == Run(handlers, empty, old(state), old(data), [token])
    {
      var result := handlers(state, token, data);
      state := result.name;
      data := Carried(result, empty);
    }
  }
}
