/**
 * The flags every generation of the shell keeps (`inProcess`,
 * `sigIntReceived`), the SIGINT trap, and `interruptible`, the cooperative
 * scheduler that runs a command's generator one step at a time and checks
 * the cancel flag before every step (cmsh/classes/Shell.js,
 * app/classes/Shell.js, shell.js).
 *
 * The generator is given by the number of values it yields before it
 * returns, and by what it returns; the timer callbacks become the rounds of
 * a loop; a SIGINT that arrives while a step runs is an input of that round.
 */
module Scheduler {

  /** The index of the first set flag, |s| when none is set. */
  function FirstSet(s: seq<bool>): (k: nat)
    ensures k <= |s|
    ensures forall j :: 0 <= j < k ==> !s[j]
    ensures k < |s| ==> s[k]
    decreases |s|
  {
    if s == [] then 0
    else if s[0] then 0
    else 1 + FirstSet(s[1..])
  }

  /** How a run of `interruptible` ends: what it resolves to, how many steps ran, whether the flag is left set. */
  datatype Run = Run(result: int, steps: nat, flagLeft: bool)

  /**
   * The run of a generator that yields `|signals| - 1` times and then returns
   * `ret`, where `signals[i]` says whether a SIGINT arrives during step i and
   * `pending` whether the flag was already set.
   */
  function Outcome(pending: bool, signals: seq<bool>, ret: int): Run
    requires |signals| >= 1
  {
    var n := |signals| - 1;
    if pending then Run(1, 0, false)
    else
      var k := FirstSet(signals[..n]);
      if k < n then Run(1, k + 1, false) else Run(ret, n + 1, signals[n])
  }

  /**
   * A flag seen before a step cancels the run: it resolves 1 after exactly
   * the steps before the signal, and the flag is cleared. Otherwise every
   * step runs, the run resolves what the generator returned, and a SIGINT
   * during the last step stays set.
   */
  lemma OutcomeMeaning(pending: bool, signals: seq<bool>, ret: int)
    requires |signals| >= 1
    ensures var n := |signals| - 1; var o := Outcome(pending, signals, ret);
      && (pending ==> o == Run(1, 0, false))
      && (forall j :: 0 <= j < n && signals[j] && (forall i :: 0 <= i < j ==> !signals[i]) ==>
            !pending ==> o == Run(1, j + 1, false))
      && ((!pending && forall j :: 0 <= j < n ==> !signals[j]) ==> o == Run(ret, n + 1, signals[n]))
  {
    var n := |signals| - 1;
    var k := FirstSet(signals[..n]);
    assert forall j :: 0 <= j < n ==> signals[..n][j] == signals[j];
    forall j | 0 <= j < n && signals[j] && (forall i :: 0 <= i < j ==> !signals[i])
      ensures k == j
    {
      assert signals[..n][j];
    }
  }

  /** A SIGINT during the last step of one run cancels the next run before its first step. */
  lemma StaleSignal(signals: seq<bool>, ret: int, next: seq<bool>, ret2: int)
    requires |signals| >= 1 && |next| >= 1
    requires Outcome(false, signals, ret).flagLeft
    ensures Outcome(Outcome(false, signals, ret).flagLeft, next, ret2) == Run(1, 0, false)
  {
  }

  class Flags {
    var inProcess: bool
    var sigIntReceived: bool
    /** `exit()` was called (cmsh), or the `exit` command run (the app and shell.js). */
    var exited: bool

    constructor()
      ensures !inProcess && !sigIntReceived && !exited
    {
      inProcess := false;
      sigIntReceived := false;
      exited := false;
    }

    /** `trap(signal)`: a SIGINT sets the flag while a command runs and exits when idle; other signals do nothing. */
    method Trap(signal: string)
      modifies this
      ensures inProcess == old(inProcess)
      ensures signal == "SIGINT" && old(inProcess) ==> sigIntReceived && exited == old(exited)
      ensures signal == "SIGINT" && !old(inProcess) ==> exited && sigIntReceived == old(sigIntReceived)
      ensures signal != "SIGINT" ==> sigIntReceived == old(sigIntReceived) && exited == old(exited)
    {
      if signal == "SIGINT" {
        if inProcess {
          sigIntReceived := true;
        } else {
          exited := true;
        }
      }
    }

    /**
     * `interruptible(fnc)`: sets `inProcess`, then before each step clears
     * both flags and resolves 1 if the cancel flag is set; otherwise runs the
     * step and, when the generator is done, clears `inProcess` and resolves
     * its value. `ran` counts the steps run.
     */
    method Interruptible(yielded: nat, ret: int, signals: seq<bool>) returns (r: int, ran: nat)
      requires |signals| == yielded + 1
      modifies this
      ensures !inProcess && exited == old(exited)
      ensures Run(r, ran, sigIntReceived) == Outcome(old(sigIntReceived), signals, ret)
    {
      ghost var pending := sigIntReceived;
      inProcess := true;
      var i := 0;
      while true
        invariant 0 <= i <= yielded
        invariant inProcess && exited == old(exited)
        invariant pending ==> i == 0
        invariant !pending && i > 0 ==> FirstSet(signals[..i - 1]) == i - 1
        invariant i == 0 ==> sigIntReceived == pending
        invariant i > 0 ==> sigIntReceived == signals[i - 1]
        decreases yielded - i
      {
        if sigIntReceived {
          inProcess := false;
          sigIntReceived := false;
          if !pending {
            assert signals[..yielded][..i - 1] == signals[..i - 1];
            FirstSetPrefix(signals[..yielded], i - 1);
          }
          return 1, i;
        }
        // step i: the generator runs, and a SIGINT may arrive meanwhile
        if signals[i] {
          Trap("SIGINT");
        }
        if !pending && i > 0 {
          FirstSetSnoc(signals[..i - 1], signals[i - 1]);
          assert signals[..i] == signals[..i - 1] + [signals[i - 1]];
        }
        if i == yielded {
          inProcess := false;
          return ret, i + 1;
        }
        i := i + 1;
      }
    }
  }

  /** Appending an unset flag after unset flags keeps none set. */
  lemma FirstSetSnoc(s: seq<bool>, b: bool)
    requires FirstSet(s) == |s| && !b
    ensures FirstSet(s + [b]) == |s| + 1
  {
    var t := s + [b];
    assert forall j :: 0 <= j < |t| ==> !t[j] by {
      forall j | 0 <= j < |t| ensures !t[j] {
        if j < |s| {
          assert t[j] == s[j];
        }
      }
    }
  }

  /** The first set flag is found at k when the flags before it are unset. */
  lemma FirstSetPrefix(s: seq<bool>, k: nat)
    requires k < |s| && s[k] && FirstSet(s[..k]) == k
    ensures FirstSet(s) == k
  {
    assert forall j :: 0 <= j < k ==> s[..k][j] == s[j];
  }
}
