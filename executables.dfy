/**
 * `getExecutablesInPath()` of every generation (cmsh/classes/Shell.js,
 * app/classes/Shell.js and shell.js): the directories of PATH are looked up
 * in order, and the executable children of each are merged into one table
 * with `Object.assign`, a later directory replacing an earlier one's entry
 * of the same name; then the built-in `exit` and `clear` are set.
 */
module Executables {
  import opened Wrappers
  import opened Dict
  import opened Tree
  import opened BaseFs

  /** A node whose `executable` flag is set: only a file has one. */
  predicate IsExecutable(n: Node) {
    n.File? && n.executable
  }

  /** The children, in key order, added to the table when executable (`Object.assign`). */
  function AddExecutables(table: Dict<Node>, children: Dict<Node>, keys: seq<string>): Dict<Node>
    decreases |keys|
  {
    if keys == [] then table
    else
      var t := AddExecutables(table, children, keys[..|keys| - 1]);
      var k := keys[|keys| - 1];
      if k in children.vals && IsExecutable(children.vals[k]) then t.Put(k, children.vals[k]) else t
  }

  /** What one looked-up PATH entry adds: the executable children of a directory; nothing for `false` or a file. */
  function AddEntry(table: Dict<Node>, found: GetResult): Dict<Node> {
    if found.Snapshot? && found.node.Dir? then AddExecutables(table, found.node.children, found.node.children.keys)
    else table
  }

  /** The table the `reduce` over the looked-up PATH entries builds. */
  function PathTable(found: seq<GetResult>): Dict<Node>
    decreases |found|
  {
    if found == [] then Empty()
    else AddEntry(PathTable(found[..|found| - 1]), found[|found| - 1])
  }

  /** The PATH entry offers `k`: it is a directory with an executable child `k`. */
  predicate Offers(found: GetResult, k: string) {
    found.Snapshot? && found.node.Dir? && k in found.node.children.keys
    && k in found.node.children.vals && IsExecutable(found.node.children.vals[k])
  }

  /** A built-in command: `{executable: true, content: ...}`. */
  function Builtin(name: string): Node {
    File(false, true, Program(name))
  }

  /** `executables.exit = ...; executables.clear = ...` */
  function WithBuiltins(table: Dict<Node>): (r: Dict<Node>)
    ensures table.Valid() ==> r.Valid()
    ensures r.Get("exit") == Some(Builtin("exit")) && r.Get("clear") == Some(Builtin("clear"))
    ensures forall k :: k != "exit" && k != "clear" ==> r.Get(k) == table.Get(k)
  {
    table.Put("exit", Builtin("exit")).Put("clear", Builtin("clear"))
  }

  /** Adding a directory's children: a name listed there and executable now maps to that child; any other keeps its entry. */
  lemma {:induction false} AddExecutablesGet(table: Dict<Node>, children: Dict<Node>, keys: seq<string>, k: string)
    ensures table.Valid() ==> AddExecutables(table, children, keys).Valid()
    ensures AddExecutables(table, children, keys).Get(k) ==
      if k in keys && k in children.vals && IsExecutable(children.vals[k]) then Some(children.vals[k]) else table.Get(k)
    decreases |keys|
  {
    if keys != [] {
      var front := keys[..|keys| - 1];
      AddExecutablesGet(table, children, front, k);
      assert keys == front + [keys[|keys| - 1]];
      assert k in keys <==> k in front || k == keys[|keys| - 1];
    }
  }

  /** One PATH entry added: a name it offers maps to its child, any other name keeps its entry. */
  lemma AddEntryGet(table: Dict<Node>, found: GetResult, k: string)
    ensures table.Valid() ==> AddEntry(table, found).Valid()
    ensures AddEntry(table, found).Get(k) == if Offers(found, k) then Some(found.node.children.vals[k]) else table.Get(k)
  {
    if found.Snapshot? && found.node.Dir? {
      AddExecutablesGet(table, found.node.children, found.node.children.keys, k);
    }
  }

  /**
   * The table maps a name to the child of the last PATH directory that
   * offers it, and has no entry for a name no directory offers.
   */
  lemma {:induction false} LaterPathWins(found: seq<GetResult>, k: string)
    ensures PathTable(found).Valid()
    ensures PathTable(found).Get(k) == if exists i :: 0 <= i < |found| && Offers(found[i], k)
      then Some(found[LastOffer(found, k)].node.children.vals[k]) else None
    decreases |found|
  {
    if found != [] {
      var front := found[..|found| - 1];
      var last := found[|found| - 1];
      LaterPathWins(front, k);
      AddEntryGet(PathTable(front), last, k);
      if !Offers(last, k) {
        if exists i :: 0 <= i < |found| && Offers(found[i], k) {
          var i :| 0 <= i < |found| && Offers(found[i], k);
          assert front[i] == found[i];
        }
        if exists i :: 0 <= i < |front| && Offers(front[i], k) {
          var i :| 0 <= i < |front| && Offers(front[i], k);
          assert found[i] == front[i];
        }
      }
    }
  }

  /** The index of the last entry that offers `k`. */
  function LastOffer(found: seq<GetResult>, k: string): (i: nat)
    requires exists i :: 0 <= i < |found| && Offers(found[i], k)
    ensures i < |found| && Offers(found[i], k)
    ensures forall j :: i < j < |found| ==> !Offers(found[j], k)
    decreases |found|
  {
    var n := |found| - 1;
    if Offers(found[n], k) then n
    else
      var front := found[..n];
      assert exists i :: 0 <= i < |front| && Offers(front[i], k) by {
        var i :| 0 <= i < |found| && Offers(found[i], k);
        assert i < n && front[i] == found[i];
      }
      var i := LastOffer(front, k);
      assert found[i] == front[i];
      i
  }
}
