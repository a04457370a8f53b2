/**
 * Output redirection as every generation of the shell does it
 * (cmsh/classes/Shell.js `buildIo`, and the `out` and closing of `execute`
 * in app/classes/Shell.js and shell.js): each line a command writes goes,
 * in order, through every handle opened for the redirections, where an
 * error handle gives an error line naming the command instead. The test is
 * on the object `open` gave: a web-storage wrapper has no `mode`, so a
 * wrapped error handle is written to (it refuses) and synced, and gives no
 * error line. When the command is done every handle is closed, which ends
 * each file with one newline.
 */
module Redirect {
  import opened Wrappers
  import opened Text
  import opened Tree
  import opened Handle
  import opened Backends

  /** The handle objects. */
  function Handles(hs: seq<Opened>): set<FileHandle> {
    set i | 0 <= i < |hs| :: hs[i].Handle()
  }

  /** The trees the handles write into. */
  function Stores(hs: seq<Opened>): set<Store> {
    set i | 0 <= i < |hs| :: hs[i].Handle().store
  }

  /** The storage the web-storage wrappers save into after each write and close. */
  function Syncers(hs: seq<Opened>): set<LocalStorage> {
    set i | 0 <= i < |hs| && hs[i].Synced? :: hs[i].wh.fs.local
  }

  /**
   * Every handle is well formed, every handle with a node still takes
   * writes, and a web-storage wrapper syncs the file system whose tree its
   * handle writes into.
   */
  ghost predicate Ready(hs: seq<Opened>)
    reads Handles(hs)
  {
    forall i :: 0 <= i < |hs| ==>
      hs[i].Handle().Valid() && (hs[i].Handle().mode != "error" ==> !hs[i].Handle().Refuses())
      && (hs[i].Synced? ==> hs[i].wh.fs.store == hs[i].Handle().store)
  }

  /** No handle object is listed twice. */
  predicate Distinct(hs: seq<Opened>) {
    forall i, j :: 0 <= i < j < |hs| ==> hs[i].Handle() != hs[j].Handle()
  }

  /** The handle objects of a list with one handle more. */
  lemma HandlesExtended(hs: seq<Opened>, h: Opened)
    ensures Handles(hs + [h]) == Handles(hs) + {h.Handle()}
  {
    var hs' := hs + [h];
    forall o | o in Handles(hs')
      ensures o in Handles(hs) + {h.Handle()}
    {
      var i :| 0 <= i < |hs'| && hs'[i].Handle() == o;
      if i < |hs| {
        assert hs[i].Handle() == o;
      }
    }
    forall o | o in Handles(hs)
      ensures o in Handles(hs')
    {
      var i :| 0 <= i < |hs| && hs[i].Handle() == o;
      assert hs'[i].Handle() == o;
    }
    assert hs'[|hs|].Handle() == h.Handle();
  }

  /** The trees of a list with one handle more. */
  lemma StoresExtended(hs: seq<Opened>, h: Opened)
    ensures Stores(hs + [h]) == Stores(hs) + {h.Handle().store}
  {
    var hs' := hs + [h];
    forall s | s in Stores(hs')
      ensures s in Stores(hs) + {h.Handle().store}
    {
      var i :| 0 <= i < |hs'| && hs'[i].Handle().store == s;
      if i < |hs| {
        assert hs[i].Handle().store == s;
      }
    }
    forall s | s in Stores(hs)
      ensures s in Stores(hs')
    {
      var i :| 0 <= i < |hs| && hs[i].Handle().store == s;
      assert hs'[i].Handle().store == s;
    }
    assert hs'[|hs|].Handle().store == h.Handle().store;
  }

  /** The storage of a list with one handle more. */
  lemma SyncersExtended(hs: seq<Opened>, h: Opened)
    ensures Syncers(hs + [h]) == Syncers(hs) + if h.Synced? then {h.wh.fs.local} else {}
  {
    var hs' := hs + [h];
    forall w | w in Syncers(hs')
      ensures w in Syncers(hs) + if h.Synced? then {h.wh.fs.local} else {}
    {
      var i :| 0 <= i < |hs'| && hs'[i].Synced? && hs'[i].wh.fs.local == w;
      if i < |hs| {
        assert hs[i].Synced? && hs[i].wh.fs.local == w;
      }
    }
    forall w | w in Syncers(hs)
      ensures w in Syncers(hs')
    {
      var i :| 0 <= i < |hs| && hs[i].Synced? && hs[i].wh.fs.local == w;
      assert hs'[i].Synced? && hs'[i].wh.fs.local == w;
    }
    if h.Synced? {
      assert hs'[|hs|].Synced? && hs'[|hs|].wh.fs.local == h.wh.fs.local;
    }
  }

  /** A further handle, ready and new, keeps the list ready and distinct, and adds its object, tree and wrapper. */
  lemma Extended(hs: seq<Opened>, h: Opened)
    requires Ready(hs) && Distinct(hs)
    requires h.Handle().Valid() && (h.Handle().mode != "error" ==> !h.Handle().Refuses())
    requires h.Synced? ==> h.wh.fs.store == h.Handle().store
    requires h.Handle() !in Handles(hs)
    ensures Ready(hs + [h]) && Distinct(hs + [h])
    ensures Handles(hs + [h]) == Handles(hs) + {h.Handle()}
    ensures Stores(hs + [h]) == Stores(hs) + {h.Handle().store}
    ensures Syncers(hs + [h]) == Syncers(hs) + if h.Synced? then {h.wh.fs.local} else {}
  {
    var hs' := hs + [h];
    assert forall i :: 0 <= i < |hs| ==> hs'[i] == hs[i];
    assert hs'[|hs|] == h;
    assert forall j :: 0 <= j < |hs| ==> hs[j].Handle() in Handles(hs);
    HandlesExtended(hs, h);
    StoresExtended(hs, h);
    SyncersExtended(hs, h);
  }

  /** A handle that changes the tree of `s` when written: not an error handle, and with a node there. */
  predicate WritesInto(h: FileHandle, s: Store) {
    h.store == s && h.mode != "error" && h.file.Some?
  }

  /** Whether a write through the handle empties the file first. */
  predicate Truncates(h: FileHandle) {
    !h.written && h.mode == "overwrite"
  }

  /** The tree of `s` after `data` has been written through each handle in turn. */
  function Appended(root: Node, s: Store, hs: seq<Opened>, data: string): Node
    decreases |hs|
  {
    if hs == [] then root
    else
      var r := Appended(root, s, hs[..|hs| - 1], data);
      var h := hs[|hs| - 1].Handle();
      if WritesInto(h, s) then Written(r, h.file.value, data, Truncates(h)) else r
  }

  /** Whether the object `open` gave has `mode === 'error'`: a plain error handle, never a web-storage wrapper. */
  predicate ShowsError(h: Opened) {
    h.Plain? && h.fh.mode == "error"
  }

  /** The error lines one written line gives: `cmd: error` for each handle showing an error, in order. */
  function ErrorLines(cmd: string, hs: seq<Opened>): seq<string>
    decreases |hs|
  {
    if hs == [] then []
    else
      var h := hs[|hs| - 1];
      ErrorLines(cmd, hs[..|hs| - 1]) + (if ShowsError(h) then [cmd + ": " + h.fh.error] else [])
  }

  /** The tree of `s` after each line has been written, one line after the other. */
  function Delivered(root: Node, s: Store, hs: seq<Opened>, lines: seq<string>): Node
    decreases |lines|
  {
    if lines == [] then root
    else Appended(Delivered(root, s, hs, lines[..|lines| - 1]), s, hs, lines[|lines| - 1])
  }

  /** The error lines `n` written lines give. */
  function ErrorsFor(cmd: string, hs: seq<Opened>, n: nat): seq<string> {
    if n == 0 then [] else ErrorsFor(cmd, hs, n - 1) + ErrorLines(cmd, hs)
  }

  /** The tree of `s` after every handle has been closed in turn (an error handle is closed already). */
  function Closed(root: Node, s: Store, hs: seq<Opened>): Node
    decreases |hs|
  {
    if hs == [] then root
    else
      var r := Closed(root, s, hs[..|hs| - 1]);
      var h := hs[|hs| - 1].Handle();
      if WritesInto(h, s) then Written(r, h.file.value, "\n", false) else r
  }

  // ----- what the web-storage saves leave in the storage -----

  /** Whether the handle is a web-storage wrapper saving into `c`. */
  predicate SavesInto(h: Opened, c: LocalStorage) {
    h.Synced? && h.wh.fs.local == c
  }

  /** The number of handles saving into `c`. */
  function SyncCount(c: LocalStorage, hs: seq<Opened>): nat
    decreases |hs|
  {
    if hs == [] then 0 else SyncCount(c, hs[..|hs| - 1]) + (if SavesInto(hs[|hs| - 1], c) then 1 else 0)
  }

  /** The index of the last handle saving into `c`, -1 when there is none. */
  function LastSync(c: LocalStorage, hs: seq<Opened>): (r: int)
    ensures -1 <= r < |hs|
    ensures r >= 0 ==> SavesInto(hs[r], c)
    ensures forall k :: r < k < |hs| ==> !SavesInto(hs[k], c)
    decreases |hs|
  {
    if hs == [] then -1
    else if SavesInto(hs[|hs| - 1], c) then |hs| - 1
    else LastSync(c, hs[..|hs| - 1])
  }

  /** Storage no handle saves into is saved into zero times, and storage some handle saves into has a last one. */
  lemma {:induction false} NoSaves(c: LocalStorage, hs: seq<Opened>)
    ensures SyncCount(c, hs) == 0 <==> LastSync(c, hs) == -1
    ensures c !in Syncers(hs) ==> SyncCount(c, hs) == 0
    decreases |hs|
  {
    if hs != [] {
      var front := hs[..|hs| - 1];
      NoSaves(c, front);
      if c !in Syncers(hs) {
        assert !SavesInto(hs[|hs| - 1], c);
        forall w | w in Syncers(front) ensures w in Syncers(hs) {
          var i :| 0 <= i < |front| && front[i].Synced? && front[i].wh.fs.local == w;
          assert hs[i] == front[i];
        }
      }
    }
  }

  /** The tree of `s` once `data` was written through the handles, or once they were closed. */
  function Through(root: Node, s: Store, hs: seq<Opened>, data: string, closing: bool): Node {
    if closing then Closed(root, s, hs) else Appended(root, s, hs, data)
  }

  /**
   * The storage `c` once the handles before `i` wrote `data` (or closed),
   * starting from the state `before` and the trees `start`: each wrapper
   * saving into it saved once, and it holds the tree behind the last of
   * them as that wrapper left it; what it held before when there is none.
   */
  function SavedState(c: LocalStorage, hs: seq<Opened>, i: nat, start: map<Store, Node>,
                      before: StorageState, data: string, closing: bool): StorageState
    requires i <= |hs|
  {
    var j := LastSync(c, hs[..i]);
    StorageState(
      if j < 0 then before.files
      else
        var s := hs[j].wh.fs.store;
        if s in start then Some(Through(start[s], s, hs[..j + 1], data, closing)) else before.files,
      before.saves + SyncCount(c, hs[..i]))
  }

  /** The trees of `start` once `lines` were written through the handles. */
  function DeliveredRoots(start: map<Store, Node>, hs: seq<Opened>, lines: seq<string>): map<Store, Node> {
    map s | s in start :: Delivered(start[s], s, hs, lines)
  }

  /** The storage `c` once every line was written through the handles, one line after the other. */
  function LinesState(c: LocalStorage, hs: seq<Opened>, start: map<Store, Node>, before: StorageState, lines: seq<string>): StorageState
    decreases |lines|
  {
    if lines == [] then before
    else
      var n := |lines| - 1;
      SavedState(c, hs, |hs|, DeliveredRoots(start, hs, lines[..n]), LinesState(c, hs, start, before, lines[..n]), lines[n], false)
  }

  /** The storage `c` once every line was written through the handles and they were all closed. */
  function ReleasedState(c: LocalStorage, hs: seq<Opened>, start: map<Store, Node>, before: StorageState, lines: seq<string>): StorageState {
    SavedState(c, hs, |hs|, DeliveredRoots(start, hs, lines), LinesState(c, hs, start, before, lines), "", true)
  }

  /**
   * Writing lines saves once per line and wrapper; the storage holds the
   * tree behind the last wrapper as it was just after the last line went
   * through it, and is unchanged when nothing was written or no wrapper
   * saves into it.
   */
  lemma {:induction false} LinesSaves(c: LocalStorage, hs: seq<Opened>, start: map<Store, Node>, before: StorageState, lines: seq<string>)
    ensures LinesState(c, hs, start, before, lines).saves == before.saves + |lines| * SyncCount(c, hs)
    ensures lines == [] || LastSync(c, hs) < 0 ==> LinesState(c, hs, start, before, lines).files == before.files
    ensures lines != [] && LastSync(c, hs) >= 0 ==>
      var j, n := LastSync(c, hs), |lines| - 1;
      var s := hs[j].wh.fs.store;
      s in start ==> LinesState(c, hs, start, before, lines).files == Some(Appended(Delivered(start[s], s, hs, lines[..n]), s, hs[..j + 1], lines[n]))
    decreases |lines|
  {
    assert hs[..|hs|] == hs;
    if lines != [] {
      var n := |lines| - 1;
      LinesSaves(c, hs, start, before, lines[..n]);
      assert lines[..n][..|lines[..n]|] == lines[..n];
      var k := SyncCount(c, hs);
      assert before.saves + n * k + k == before.saves + (n + 1) * k;
    }
  }

  /**
   * After the lines were written and every handle closed: one save per
   * wrapper for each line and once more for its close, and the storage
   * holds the tree behind the last wrapper after the closing, or what it
   * held before when no wrapper saves into it.
   */
  lemma ReleasedSaves(c: LocalStorage, hs: seq<Opened>, start: map<Store, Node>, before: StorageState, lines: seq<string>)
    ensures ReleasedState(c, hs, start, before, lines).saves == before.saves + (|lines| + 1) * SyncCount(c, hs)
    ensures LastSync(c, hs) < 0 ==> ReleasedState(c, hs, start, before, lines) == before
    ensures LastSync(c, hs) >= 0 ==>
      var j := LastSync(c, hs);
      var s := hs[j].wh.fs.store;
      s in start ==> ReleasedState(c, hs, start, before, lines).files == Some(Closed(Delivered(start[s], s, hs, lines), s, hs[..j + 1]))
  {
    assert hs[..|hs|] == hs;
    LinesSaves(c, hs, start, before, lines);
    NoSaves(c, hs);
    var k := SyncCount(c, hs);
    assert before.saves + |lines| * k + k == before.saves + (|lines| + 1) * k;
  }

  /** The trees of `start` that the handles write into. */
  function Restrict(start: map<Store, Node>, hs: seq<Opened>): map<Store, Node> {
    map s | s in start && s in Stores(hs) :: start[s]
  }

  /**
   * The storage `c` after the lines went through the handles and the
   * handles were closed, from what WriteLines and CloseAll state
   * (`mid` after the lines, `now` after the closes): the state
   * ReleasedState gives; when no wrapper saves into it, the state it had.
   */
  lemma ReleasedCell(c: LocalStorage, hs: seq<Opened>, start: map<Store, Node>,
                     mid: map<LocalStorage, StorageState>, before: StorageState, now: StorageState, lines: seq<string>)
    requires mid.Keys == Syncers(hs)
    requires c in mid ==> mid[c] == LinesState(c, hs, start, before, lines)
    requires c in mid ==> now == SavedState(c, hs, |hs|, DeliveredRoots(start, hs, lines), mid[c], "", true)
    requires c !in mid ==> now == before
    ensures now == ReleasedState(c, hs, start, before, lines)
  {
    if c !in mid {
      NoSaves(c, hs);
      ReleasedSaves(c, hs, start, before, lines);
    }
  }

  /** The trees the handles write into, as they are now. */
  ghost function Roots(hs: seq<Opened>): map<Store, Node>
    reads Stores(hs)
  {
    map s | s in Stores(hs) :: s.root
  }

  /** The state of each storage the wrappers save into, as it is now. */
  ghost function Cells(hs: seq<Opened>): map<LocalStorage, StorageState>
    reads Syncers(hs)
  {
    map c | c in Syncers(hs) :: c.State()
  }

  /** Each storage the wrappers save into is in the state SavedState gives for the handles before `i`. */
  ghost predicate CellsSaved(hs: seq<Opened>, i: nat, start: map<Store, Node>, cells: map<LocalStorage, StorageState>,
                             data: string, closing: bool)
    requires i <= |hs|
    reads Syncers(hs)
  {
    forall c :: c in Syncers(hs) ==> c in cells && c.State() == SavedState(c, hs, i, start, cells[c], data, closing)
  }

  /** A storage is in its saved state for the handles before `i + 1`, once it was for those before `i` and handle `i` did its part. */
  lemma SavedNext(c: LocalStorage, hs: seq<Opened>, i: nat, start: map<Store, Node>, before: StorageState,
                  data: string, closing: bool)
    requires i < |hs|
    ensures !SavesInto(hs[i], c) ==> SavedState(c, hs, i + 1, start, before, data, closing) == SavedState(c, hs, i, start, before, data, closing)
    ensures SavesInto(hs[i], c) ==>
      var s := hs[i].wh.fs.store;
      s in start ==>
        SavedState(c, hs, i + 1, start, before, data, closing)
          == StorageState(Some(Through(start[s], s, hs[..i + 1], data, closing)), SavedState(c, hs, i, start, before, data, closing).saves + 1)
  {
    assert hs[..i + 1][..i] == hs[..i];
    assert hs[..i + 1][i] == hs[i];
  }

  /**
   * A handle `open` gave for a redirection to `path` in the tree of `s`: an
   * error handle says `permission denied` with the path's last segment; any
   * other appends to the node at `loc`, which the tree `after` has.
   */
  predicate OpenedAt(h: FileHandle, s: Store, path: string, loc: Loc, after: Node) {
    h.store == s
    && (h.mode == "error" ==> h.error == "permission denied: " + Leaf(path))
    && (h.mode != "error" ==> h.mode == "append" && h.file == Some(loc) && At(after, loc).Some?)
  }

  /** One line written through every handle, as the redirected `writeLine` and `out` do. */
  method WriteLine(cmd: string, hs: seq<Opened>, data: string) returns (errs: seq<string>)
    requires Ready(hs)
    modifies Stores(hs), Syncers(hs)
    ensures Ready(hs)
    ensures errs == ErrorLines(cmd, hs)
    ensures forall s :: s in Stores(hs) ==> s.root == Appended(old(s.root), s, hs, data)
    ensures CellsSaved(hs, |hs|, old(Roots(hs)), old(Cells(hs)), data, false)
  {
    ghost var start := Roots(hs);
    ghost var cells := Cells(hs);
    errs := [];
    var i := 0;
    while i < |hs|
      invariant 0 <= i <= |hs|
      invariant Ready(hs)
      invariant errs == ErrorLines(cmd, hs[..i])
      invariant RootsAppended(hs, i, start, data)
      invariant CellsSaved(hs, i, start, cells, data, false)
    {
      var e := WriteNext(cmd, hs, i, data, start, cells);
      errs := errs + e;
      i := i + 1;
    }
    assert hs[..i] == hs;
  }

  /** Each tree holds what writing `data` through the handles before `i` made of its tree in `start`. */
  ghost predicate RootsAppended(hs: seq<Opened>, i: nat, start: map<Store, Node>, data: string)
    requires i <= |hs|
    reads Stores(hs)
  {
    forall s :: s in Stores(hs) ==> s in start && s.root == Appended(start[s], s, hs[..i], data)
  }

  /**
   * The step of the `forEach` in `writeLine` for the handle at `i`: a
   * handle whose `mode` is `'error'` gives the line `cmd: error`, any other
   * one, a web-storage wrapper included, writes `data`.
   */
  method WriteNext(cmd: string, hs: seq<Opened>, i: nat, data: string, ghost start: map<Store, Node>,
                   ghost cells: map<LocalStorage, StorageState>) returns (e: seq<string>)
    requires i < |hs| && Ready(hs) && RootsAppended(hs, i, start, data) && CellsSaved(hs, i, start, cells, data, false)
    modifies hs[i].Handle().store, if hs[i].Synced? then {hs[i].wh.fs.local} else {}
    ensures Ready(hs) && RootsAppended(hs, i + 1, start, data) && CellsSaved(hs, i + 1, start, cells, data, false)
    ensures ErrorLines(cmd, hs[..i + 1]) == ErrorLines(cmd, hs[..i]) + e
    ensures hs[i].Synced? ==> hs[i].wh.fs.local.files == Some(hs[i].wh.fs.store.root)
    ensures hs[i].Synced? ==> hs[i].wh.fs.local.saves == old(hs[i].wh.fs.local.saves) + 1
  {
    assert hs[..i + 1][..i] == hs[..i];
    var h := hs[i];
    if h.Plain? && h.fh.mode == "error" {
      e := [cmd + ": " + h.fh.error];
    } else {
      e := [];
      if h.Plain? {
        var _ := h.fh.Write(data);
      } else {
        var _ := h.wh.Write(data);
      }
    }
    assert h.Handle().store in Stores(hs);
    forall c | c in Syncers(hs)
      ensures c in cells && c.State() == SavedState(c, hs, i + 1, start, cells[c], data, false)
    {
      SavedNext(c, hs, i, start, cells[c], data, false);
    }
  }

  /** Every line a command writes, one after the other. */
  method WriteLines(cmd: string, hs: seq<Opened>, lines: seq<string>) returns (errs: seq<string>)
    requires Ready(hs)
    modifies Stores(hs), Syncers(hs)
    ensures Ready(hs)
    ensures errs == ErrorsFor(cmd, hs, |lines|)
    ensures forall s :: s in Stores(hs) ==> s.root == Delivered(old(s.root), s, hs, lines)
    ensures Roots(hs) == DeliveredRoots(old(Roots(hs)), hs, lines)
    ensures LinesSaved(hs, old(Roots(hs)), old(Cells(hs)), Cells(hs), lines)
  {
    ghost var start, cells0 := Roots(hs), Cells(hs);
    errs := [];
    var i := 0;
    while i < |lines|
      invariant 0 <= i <= |lines|
      invariant Ready(hs)
      invariant errs == ErrorsFor(cmd, hs, i)
      invariant forall s :: s in Stores(hs) ==> s.root == Delivered(old(s.root), s, hs, lines[..i])
      invariant Roots(hs) == DeliveredRoots(start, hs, lines[..i])
      invariant LinesSaved(hs, start, cells0, Cells(hs), lines[..i])
    {
      assert lines[..i + 1][..i] == lines[..i];
      ghost var roots, cells := Roots(hs), Cells(hs);
      var e := WriteLine(cmd, hs, lines[i]);
      errs := errs + e;
      LinesNext(hs, start, cells0, cells, Cells(hs), lines, i, roots);
      i := i + 1;
    }
    assert lines[..i] == lines;
  }

  /** Each storage in `cells` is in the state LinesState gives for `lines`, from its state in `cells0`. */
  ghost predicate LinesSaved(hs: seq<Opened>, start: map<Store, Node>, cells0: map<LocalStorage, StorageState>,
                             cells: map<LocalStorage, StorageState>, lines: seq<string>)
  {
    forall c :: c in cells ==> c in cells0 && cells[c] == LinesState(c, hs, start, cells0[c], lines)
  }

  /** One more line written through the handles takes every storage from its state for the lines before to its state for them all. */
  lemma LinesNext(hs: seq<Opened>, start: map<Store, Node>, cells0: map<LocalStorage, StorageState>,
                  cells: map<LocalStorage, StorageState>, after: map<LocalStorage, StorageState>,
                  lines: seq<string>, i: nat, roots: map<Store, Node>)
    requires i < |lines| && roots == DeliveredRoots(start, hs, lines[..i]) && LinesSaved(hs, start, cells0, cells, lines[..i])
    requires after.Keys == cells.Keys
    requires forall c :: c in after ==> after[c] == SavedState(c, hs, |hs|, roots, cells[c], lines[i], false)
    ensures LinesSaved(hs, start, cells0, after, lines[..i + 1])
  {
    assert lines[..i + 1][..i] == lines[..i];
    assert hs[..|hs|] == hs;
  }

  /** Every handle closed in turn, as the release of the redirected io and the end of `execute` do. */
  method CloseAll(hs: seq<Opened>)
    requires Ready(hs) && Distinct(hs)
    modifies Handles(hs), Stores(hs), Syncers(hs)
    ensures forall i :: 0 <= i < |hs| ==> hs[i].Handle().closed && hs[i].Handle().Valid()
    ensures forall s :: s in Stores(hs) ==> s.root == Closed(old(s.root), s, hs)
    ensures CellsSaved(hs, |hs|, old(Roots(hs)), old(Cells(hs)), "", true)
  {
    ghost var start := Roots(hs);
    ghost var cells := Cells(hs);
    var i := 0;
    while i < |hs|
      invariant 0 <= i <= |hs|
      invariant ClosedUpTo(hs, i) && RootsClosed(hs, i, start) && CellsSaved(hs, i, start, cells, "", true)
    {
      CloseNext(hs, i, start, cells);
      i := i + 1;
    }
    assert hs[..i] == hs;
  }

  /** The handles before `i` are closed, the others still take writes, and all are well formed. */
  ghost predicate ClosedUpTo(hs: seq<Opened>, i: nat)
    reads Handles(hs)
  {
    forall j :: 0 <= j < |hs| ==>
      hs[j].Handle().Valid()
      && (if j < i then hs[j].Handle().closed else hs[j].Handle().mode != "error" ==> !hs[j].Handle().closed)
  }

  /**
   * After a redirected command: no handle is listed twice, every handle is
   * closed, and each tree the handles write into holds what writing
   * `lines` through them and closing them made of its tree in `start`.
   */
  ghost predicate Released(hs: seq<Opened>, start: map<Store, Node>, lines: seq<string>)
    reads Handles(hs), Stores(hs)
  {
    && Distinct(hs)
    && (forall i :: 0 <= i < |hs| ==> hs[i].Handle().closed)
    && forall s :: s in Stores(hs) ==> s in start && s.root == Closed(Delivered(start[s], s, hs, lines), s, hs)
  }

  /** Each tree holds what closing the handles before `i` made of its tree in `start`. */
  ghost predicate RootsClosed(hs: seq<Opened>, i: nat, start: map<Store, Node>)
    requires i <= |hs|
    reads Stores(hs)
  {
    forall s :: s in Stores(hs) ==> s in start && s.root == Closed(start[s], s, hs[..i])
  }

  /** `fh.close()` for the handle at `i`, the step of the `forEach` in CloseAll. */
  method CloseNext(hs: seq<Opened>, i: nat, ghost start: map<Store, Node>, ghost cells: map<LocalStorage, StorageState>)
    requires i < |hs| && Distinct(hs) && (hs[i].Synced? ==> hs[i].wh.fs.store == hs[i].Handle().store)
    requires ClosedUpTo(hs, i) && RootsClosed(hs, i, start) && CellsSaved(hs, i, start, cells, "", true)
    modifies hs[i].Handle(), hs[i].Handle().store, if hs[i].Synced? then {hs[i].wh.fs.local} else {}
    ensures ClosedUpTo(hs, i + 1) && RootsClosed(hs, i + 1, start) && CellsSaved(hs, i + 1, start, cells, "", true)
    ensures hs[i].Synced? ==> hs[i].wh.fs.local.files == Some(hs[i].wh.fs.store.root)
    ensures hs[i].Synced? ==> hs[i].wh.fs.local.saves == old(hs[i].wh.fs.local.saves) + 1
  {
    assert hs[..i + 1][..i] == hs[..i];
    if hs[i].Plain? {
      var _ := hs[i].fh.Close();
    } else {
      var _ := hs[i].wh.Close();
    }
    assert hs[i].Handle().store in Stores(hs);
    forall c | c in Syncers(hs)
      ensures c in cells && c.State() == SavedState(c, hs, i + 1, start, cells[c], "", true)
    {
      SavedNext(c, hs, i, start, cells[c], "", true);
    }
  }

  // ----- what the files end up holding -----

  /** `data` written `m` times in a row. */
  function Repeat(data: string, m: nat): string {
    if m == 0 then "" else Repeat(data, m - 1) + data
  }

  /** The number of handles writing into `s` at `loc`. */
  function Count(s: Store, loc: Loc, hs: seq<Opened>): nat
    decreases |hs|
  {
    if hs == [] then 0
    else
      var h := hs[|hs| - 1].Handle();
      Count(s, loc, hs[..|hs| - 1]) + (if WritesInto(h, s) && h.file.value == loc then 1 else 0)
  }

  /** Each line repeated once per handle on the file, the lines one after the other. */
  function Spread(lines: seq<string>, m: nat): string
    decreases |lines|
  {
    if lines == [] then "" else Spread(lines[..|lines| - 1], m) + Repeat(lines[|lines| - 1], m)
  }

  /** No handle empties its file before writing. */
  predicate NoTruncation(hs: seq<Opened>) {
    forall i :: 0 <= i < |hs| ==> !Truncates(hs[i].Handle())
  }

  /** A write somewhere else leaves the text of a file as it was. */
  lemma WriteKeepsText(root: Node, other: Loc, data: string, truncate: bool, loc: Loc)
    requires TextAt(root, loc).Some? && other != loc
    ensures TextAt(Written(root, other, data, truncate), loc) == TextAt(root, loc)
  {
    if At(root, other).Some? {
      var n := At(root, other).value;
      if n.Dir? {
        assert WrittenNode(n, data, truncate) == n;
        ReplaceSame(root, other);
      } else {
        if other < loc {
          BelowFile(root, other, loc);
        }
        if loc < other {
          BelowFile(root, loc, other);
        }
        AtReplaceElsewhere(root, other, WrittenNode(n, data, truncate), loc);
      }
    }
  }

  /** Handles that do not write into `s` leave its tree alone, while writing and while closing. */
  lemma {:induction false} Untouched(root: Node, s: Store, hs: seq<Opened>, data: string)
    requires forall i :: 0 <= i < |hs| ==> !WritesInto(hs[i].Handle(), s)
    ensures Appended(root, s, hs, data) == root
    ensures Closed(root, s, hs) == root
    decreases |hs|
  {
    if hs != [] {
      Untouched(root, s, hs[..|hs| - 1], data);
    }
  }

  /**
   * One written line reaches a text file once per handle on it: the file
   * holds its old text followed by the line that many times.
   */
  lemma {:induction false} AppendedText(root: Node, s: Store, hs: seq<Opened>, data: string, loc: Loc)
    requires TextAt(root, loc).Some? && NoTruncation(hs)
    ensures TextAt(Appended(root, s, hs, data), loc) == Some(TextAt(root, loc).value + Repeat(data, Count(s, loc, hs)))
    decreases |hs|
  {
    if hs != [] {
      var front := hs[..|hs| - 1];
      assert NoTruncation(front) by {
        forall i | 0 <= i < |front| ensures !Truncates(front[i].Handle()) {
          assert front[i] == hs[i];
        }
      }
      AppendedText(root, s, front, data, loc);
      var r := Appended(root, s, front, data);
      var h := hs[|hs| - 1].Handle();
      if WritesInto(h, s) {
        assert !Truncates(h);
        if h.file.value == loc {
          AppendAddsData(r, loc, data);
          var t, c := TextAt(root, loc).value, Count(s, loc, front);
          assert t + Repeat(data, c) + data == t + Repeat(data, c + 1);
        } else {
          WriteKeepsText(r, h.file.value, data, false, loc);
        }
      }
    } else {
      assert TextAt(root, loc).value + Repeat(data, 0) == TextAt(root, loc).value;
    }
  }

  /** Closing ends a text file with one newline per handle on it. */
  lemma {:induction false} ClosedText(root: Node, s: Store, hs: seq<Opened>, loc: Loc)
    requires TextAt(root, loc).Some?
    ensures TextAt(Closed(root, s, hs), loc) == Some(TextAt(root, loc).value + Repeat("\n", Count(s, loc, hs)))
    decreases |hs|
  {
    if hs != [] {
      var front := hs[..|hs| - 1];
      ClosedText(root, s, front, loc);
      var r := Closed(root, s, front);
      var h := hs[|hs| - 1].Handle();
      if WritesInto(h, s) {
        if h.file.value == loc {
          AppendAddsData(r, loc, "\n");
          var t, c := TextAt(root, loc).value, Count(s, loc, front);
          assert t + Repeat("\n", c) + "\n" == t + Repeat("\n", c + 1);
        } else {
          WriteKeepsText(r, h.file.value, "\n", false, loc);
        }
      }
    } else {
      assert TextAt(root, loc).value + Repeat("\n", 0) == TextAt(root, loc).value;
    }
  }

  /** Line after line: the file holds its old text followed by every line, each once per handle, with no separator. */
  lemma {:induction false} DeliveredText(root: Node, s: Store, hs: seq<Opened>, lines: seq<string>, loc: Loc)
    requires TextAt(root, loc).Some? && NoTruncation(hs)
    ensures TextAt(Delivered(root, s, hs, lines), loc) == Some(TextAt(root, loc).value + Spread(lines, Count(s, loc, hs)))
    decreases |lines|
  {
    if lines != [] {
      var front := lines[..|lines| - 1];
      DeliveredText(root, s, hs, front, loc);
      AppendedText(Delivered(root, s, hs, front), s, hs, lines[|lines| - 1], loc);
      var t, m := TextAt(root, loc).value, Count(s, loc, hs);
      assert t + Spread(front, m) + Repeat(lines[|lines| - 1], m) == t + Spread(lines, m);
    } else {
      assert TextAt(root, loc).value + Spread(lines, Count(s, loc, hs)) == TextAt(root, loc).value;
    }
  }

  /** With one handle on a file, the lines are run together as by `join('')`. */
  lemma {:induction false} SpreadOnce(lines: seq<string>)
    ensures Spread(lines, 1) == Join(lines, "")
    decreases |lines|
  {
    if lines != [] {
      var front := lines[..|lines| - 1];
      var last := lines[|lines| - 1];
      SpreadOnce(front);
      assert lines == front + [last];
      JoinSnoc(front, last, "");
      assert Repeat(last, 1) == last;
      assert Spread(lines, 1) == Join(front, "") + last;
      if front != [] {
        assert Join(lines, "") == Join(front, "") + "" + last;
      }
    }
  }

  /**
   * A command's output redirected by one handle to a text file: after the
   * command the file holds its old text, then all the lines run together,
   * then one newline.
   */
  lemma SingleRedirection(root: Node, s: Store, hs: seq<Opened>, lines: seq<string>, loc: Loc)
    requires TextAt(root, loc).Some? && NoTruncation(hs) && Count(s, loc, hs) == 1
    ensures TextAt(Closed(Delivered(root, s, hs, lines), s, hs), loc) == Some(TextAt(root, loc).value + Join(lines, "") + "\n")
  {
    DeliveredText(root, s, hs, lines, loc);
    ClosedText(Delivered(root, s, hs, lines), s, hs, loc);
    SpreadOnce(lines);
    assert Repeat("\n", 1) == "\n";
  }
  /**
   * A file the redirections only grew (`before` is the tree before the
   * handles were opened, `mid` once they all are): with one handle on it,
   * after the command it holds the text it had (none when it is new), then
   * all the lines run together, then one newline.
   */
  lemma RedirectedFile(before: Node, mid: Node, s: Store, hs: seq<Opened>, lines: seq<string>, loc: Loc)
    requires Grows(before, mid) && At(mid, loc).Some?
    requires At(before, loc).None? || TextAt(before, loc).Some?
    requires NoTruncation(hs) && Count(s, loc, hs) == 1
    ensures TextAt(Closed(Delivered(mid, s, hs, lines), s, hs), loc)
         == Some(TextAt(before, loc).GetOr("") + Join(lines, "") + "\n")
  {
    if At(before, loc).None? {
      assert At(mid, loc) == Some(NewFile);
    } else {
      assert At(mid, loc) == At(before, loc);
    }
    SingleRedirection(mid, s, hs, lines, loc);
  }
}
