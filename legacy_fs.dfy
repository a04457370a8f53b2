/**
 * The file system of the two earlier generations, identical in
 * app/classes/FileSystem.js and in the `FileSystem` class of shell.js: one
 * tree built from a description, a walk that handles `.` and `..` itself by
 * remembering a single parent, and `create` and `open` that insert in place.
 */
module LegacyFs {
  import opened Wrappers
  import opened Dict
  import opened Text
  import opened Tree
  import opened BaseFs
  import opened Handle
  import opened Backends

  // ----- get -----

  /** The walk's state: `position`, the one remembered `parent`, and the `fullPath` names. */
  datatype Position = Position(node: Loc, parent: Loc, fullPath: seq<string>)

  /**
   * One segment of the walk: `''` and `.` are skipped; `..` goes back to the
   * remembered parent (which stays the same) and drops the last reported
   * name; a child becomes the position and the old position the parent.
   */
  function LegacyStep(root: Node, pos: Option<Position>, p: string): Option<Position> {
    if pos.None? then None
    else if p == "" || p == "." then pos
    else if p == ".." then Some(pos.value.(node := pos.value.parent, fullPath := Push(pos.value.fullPath, "..")))
    else
      var at := At(root, pos.value.node);
      if at.Some? && at.value.Dir? && p in at.value.children.vals
      then Some(Position(pos.value.node + [p], pos.value.node, pos.value.fullPath + [p]))
      else None
  }

  function LegacyWalk(root: Node, parts: seq<string>): Option<Position>
    decreases |parts|
  {
    if parts == [] then Some(Position([], [], []))
    else LegacyStep(root, LegacyWalk(root, parts[..|parts| - 1]), parts[|parts| - 1])
  }

  /** `get(path, pointer)`: `false`, the live node, or a copy with the reported `fullPath` and the last segment. */
  function LegacyGetSpec(root: Node, path: string, pointer: bool): GetResult {
    var parts := Split(path, '/');
    var w := LegacyWalk(root, parts);
    if w.None? || At(root, w.value.node).None? then NotFound
    else if pointer then Pointer(w.value.node)
    else Snapshot(At(root, w.value.node).value, Absolute(w.value.fullPath), parts[|parts| - 1])
  }

  /** Once the walk has failed it stays failed. */
  lemma {:induction false} LegacyWalkNone(root: Node, parts: seq<string>, i: nat)
    requires i <= |parts| && LegacyWalk(root, parts[..i]) == None
    ensures LegacyWalk(root, parts) == None
    decreases |parts| - i
  {
    if i < |parts| {
      assert parts[..i + 1][..i] == parts[..i];
      LegacyWalkNone(root, parts, i + 1);
    } else {
      assert parts[..i] == parts;
    }
  }

  /** The walk only ever stands on nodes of the tree. */
  lemma {:induction false} LegacyWalkInTree(root: Node, parts: seq<string>)
    requires LegacyWalk(root, parts).Some?
    ensures At(root, LegacyWalk(root, parts).value.node).Some?
    ensures At(root, LegacyWalk(root, parts).value.parent).Some?
    decreases |parts|
  {
    if parts != [] {
      var front := parts[..|parts| - 1];
      LegacyWalkInTree(root, front);
      var pos := LegacyWalk(root, front).value;
      var p := parts[|parts| - 1];
      if Proper(p) {
        AtSnoc(root, pos.node, p);
      }
    }
  }

  /**
   * The reported names are those `resolvePath` keeps: `..` pops a name
   * (never past the root) while the position only goes back to the parent.
   */
  lemma {:induction false} LegacyFullPath(root: Node, parts: seq<string>)
    requires LegacyWalk(root, parts).Some?
    ensures LegacyWalk(root, parts).value.fullPath == Normalise(parts)
    decreases |parts|
  {
    if parts != [] {
      LegacyFullPath(root, parts[..|parts| - 1]);
    }
  }

  /** A copy always reports the resolved path, wherever the walk ended. */
  lemma LegacyReportsResolved(root: Node, path: string)
    requires LegacyGetSpec(root, path, false) != NotFound
    ensures LegacyGetSpec(root, path, false).fullPath == ResolvedPath(path)
    ensures LegacyGetSpec(root, path, false).basename == LastSegment(path, '/')
  {
    LegacyFullPath(root, Split(path, '/'));
  }

  /** Without `.` and `..` segments this walk and the cmsh walk agree. */
  lemma {:induction false} LegacyAgrees(root: Node, parts: seq<string>)
    requires forall i :: 0 <= i < |parts| ==> parts[i] != "." && parts[i] != ".."
    ensures LegacyWalk(root, parts).Some? <==> Walk(root, parts).Some?
    ensures LegacyWalk(root, parts).Some? ==> LegacyWalk(root, parts).value.node == Walk(root, parts).value
    decreases |parts|
  {
    if parts != [] {
      var front := parts[..|parts| - 1];
      assert forall i :: 0 <= i < |front| ==> front[i] == parts[i];
      LegacyAgrees(root, front);
    }
  }

  /** So `get` of a path without `.` and `..` answers as the cmsh `get` does, for a live node. */
  lemma LegacyGetAgrees(root: Node, path: string)
    requires forall i :: 0 <= i < |Split(path, '/')| ==> Split(path, '/')[i] != "." && Split(path, '/')[i] != ".."
    ensures LegacyGetSpec(root, path, true) == GetSpec(root, path, true)
  {
    LegacyAgrees(root, Split(path, '/'));
  }

  /**
   * `..` goes back to the one remembered parent: `/a/b/../..` ends on `a`,
   * although the copy reports `/`.
   */
  lemma ParentRemembered(root: Node, a: string, b: string)
    requires Proper(a) && Proper(b) && '/' !in a && '/' !in b
    requires At(root, [a, b]).Some?
    ensures LegacyGetSpec(root, "/" + a + "/" + b + "/../..", true) == Pointer([a])
    ensures LegacyGetSpec(root, "/" + a + "/" + b + "/../..", false).fullPath == "/"
  {
    UpTwiceParts(a, b);
    UpTwiceWalk(root, a, b);
    AtSnoc(root, [], a);
    assert [] + [a] == [a];
  }

  /** The segments of `/a/b/../..`. */
  lemma UpTwiceParts(a: string, b: string)
    requires '/' !in a && '/' !in b
    ensures Split("/" + a + "/" + b + "/../..", '/') == ["", a, b, "..", ".."]
  {
    var parts := ["", a, b, "..", ".."];
    assert forall i :: 0 <= i < |parts| ==> '/' !in parts[i];
    SplitJoin(parts, '/');
    UpTwiceJoin(a, b);
  }

  /** The segments joined with `/` give the path back. */
  lemma UpTwiceJoin(a: string, b: string)
    ensures Join(["", a, b, "..", ".."], "/") == "/" + a + "/" + b + "/../.."
  {
    var parts := ["", a, b, "..", ".."];
    var up := Join(["..", ".."], "/");
    assert up == "../.." by { assert ["..", ".."][1..] == [".."]; }
    assert Join([b, "..", ".."], "/") == b + "/" + up by { assert [b, "..", ".."][1..] == ["..", ".."]; }
    assert Join([a, b, "..", ".."], "/") == a + "/" + (b + "/" + up) by {
      assert [a, b, "..", ".."][1..] == [b, "..", ".."];
    }
    assert Join(parts, "/") == "" + "/" + (a + "/" + (b + "/" + up)) by {
      assert parts[1..] == [a, b, "..", ".."];
    }
    assert "/" + a + "/" + b + "/../.." == "/" + a + "/" + b + "/" + up;
  }

  /** The walk of `/a/b/../..` climbs back to `a`, the one parent it remembers, and forgets the path it took. */
  lemma UpTwiceWalk(root: Node, a: string, b: string)
    requires Proper(a) && Proper(b)
    requires At(root, [a, b]).Some?
    ensures LegacyWalk(root, ["", a, b, "..", ".."]) == Some(Position([a], [a], []))
  {
    var parts := ["", a, b, "..", ".."];
    AtSnoc(root, [], a);
    AtSnoc(root, [a], b);
    assert [] + [a] == [a] && [a] + [b] == [a, b];
    assert LegacyWalk(root, parts[..1]) == Some(Position([], [], [])) by {
      assert parts[..1] == [""] && [""][..0] == [];
    }
    assert LegacyWalk(root, parts[..2]) == Some(Position([a], [], [a])) by { assert parts[..2][..1] == parts[..1]; }
    assert LegacyWalk(root, parts[..3]) == Some(Position([a, b], [a], [a, b])) by { assert parts[..3][..2] == parts[..2]; }
    assert LegacyWalk(root, parts[..4]) == Some(Position([a], [a], [a])) by { assert parts[..4][..3] == parts[..3]; }
    assert parts[..4] == parts[..|parts| - 1];
  }

  // ----- create -----

  /** The location the directory lookup of `create` finds. */
  function LegacyParentLoc(root: Node, path: string): Option<Loc> {
    var w := LegacyWalk(root, Split(ParentPath(path), '/'));
    if w.Some? then Some(w.value.node) else None
  }

  /** The directory lookup succeeds and its node has `writeable === true`. */
  predicate LegacyWriteableParent(root: Node, path: string) {
    var loc := LegacyParentLoc(root, path);
    loc.Some? && At(root, loc.value).Some? && At(root, loc.value).value.writeable
  }

  /** `create` throws here: the writeable "directory" is a file, which has no `children`. */
  predicate LegacyThrows(root: Node, path: string) {
    LegacyWriteableParent(root, path) && At(root, LegacyParentLoc(root, path).value).value.File?
  }

  /** `create` inserts: a writeable directory without a child of that name. */
  predicate LegacyCreatable(root: Node, path: string) {
    LegacyWriteableParent(root, path) && At(root, LegacyParentLoc(root, path).value).value.Dir?
    && Leaf(path) !in At(root, LegacyParentLoc(root, path).value).value.children.vals
  }

  function LegacyCreated(root: Node, path: string): Node
    requires LegacyCreatable(root, path)
  {
    Insert(root, LegacyParentLoc(root, path).value, Leaf(path), NewFile)
  }

  /**
   * What `create(path, pointer)` does and returns: `false` without change
   * when the directory is missing or not writeable, `undefined` without
   * change when the name is taken, otherwise the lookup of the new file.
   */
  predicate LegacyCreateOutcome(before: Node, after: Node, path: string, pointer: bool, r: Option<GetResult>) {
    if !LegacyWriteableParent(before, path) then after == before && r == Some(NotFound)
    else if LegacyCreatable(before, path) then after == LegacyCreated(before, path) && r == Some(LegacyGetSpec(after, path, pointer))
    else after == before && r == None
  }

  /** The directory lookup of `create` walks the segments before the leaf. */
  lemma LegacyParentWalk(root: Node, path: string)
    ensures var w := LegacyWalk(root, ParentParts(path));
      LegacyParentLoc(root, path) == if w.Some? then Some(w.value.node) else None
    ensures LegacyWalk(root, Split(path, '/')) == LegacyStep(root, LegacyWalk(root, ParentParts(path)), Leaf(path))
  {
    ParentSplit(path);
    if ParentParts(path) == [] {
      assert [""][..0] == [];
    }
    var parts := Split(path, '/');
    assert parts[..|parts| - 1] == ParentParts(path);
  }

  /** A walk that succeeded still succeeds, the same way, after an insertion under a free name. */
  lemma {:induction false} LegacyWalkKeeps(root: Node, loc: Loc, name: string, child: Node, parts: seq<string>)
    requires At(root, loc).Some? && At(root, loc).value.Dir? && name !in At(root, loc).value.children.vals
    requires LegacyWalk(root, parts).Some?
    ensures LegacyWalk(Insert(root, loc, name, child), parts) == LegacyWalk(root, parts)
    decreases |parts|
  {
    if parts != [] {
      var front := parts[..|parts| - 1];
      var p := parts[|parts| - 1];
      LegacyWalkKeeps(root, loc, name, child, front);
      if Proper(p) {
        var pos := LegacyWalk(root, front).value;
        var root' := Insert(root, loc, name, child);
        AtSnoc(root, pos.node, p);
        InsertKeeps(root, loc, name, child, pos.node + [p]);
        AtSnoc(root', pos.node, p);
      }
    }
  }

  /** A path that is missing although its directory exists ends in a proper name. */
  lemma LegacyMissingHasName(root: Node, path: string)
    requires LegacyGetSpec(root, path, true).NotFound? && LegacyWriteableParent(root, path)
    ensures Proper(Leaf(path))
  {
    LegacyParentWalk(root, path);
    var w := LegacyWalk(root, ParentParts(path));
    LegacyWalkInTree(root, ParentParts(path));
    if !Proper(Leaf(path)) {
      LegacyWalkInTree(root, Split(path, '/'));
    }
  }

  /**
   * After a successful `create` of a proper name the new file is found
   * under the path, as a writeable empty file, and every walk that
   * succeeded before still ends on the same node.
   */
  lemma LegacyCreateThenGet(root: Node, path: string)
    requires LegacyCreatable(root, path) && Proper(Leaf(path))
    ensures var loc := LegacyParentLoc(root, path).value + [Leaf(path)];
      LegacyGetSpec(LegacyCreated(root, path), path, true) == Pointer(loc)
      && At(LegacyCreated(root, path), loc) == Some(NewFile)
  {
    var parent := LegacyParentLoc(root, path).value;
    var root' := LegacyCreated(root, path);
    LegacyParentWalk(root, path);
    LegacyParentWalk(root', path);
    LegacyWalkKeeps(root, parent, Leaf(path), NewFile, ParentParts(path));
    InsertFinds(root, parent, Leaf(path), NewFile);
    AtSnoc(root', parent, Leaf(path));
  }

  /** `create` never overwrites and keeps every node that was there. */
  lemma LegacyCreateKeeps(root: Node, path: string, other: Loc)
    requires LegacyCreatable(root, path) && At(root, other).Some?
    ensures At(LegacyCreated(root, path), other).Some?
    ensures !(other <= LegacyParentLoc(root, path).value) ==> At(LegacyCreated(root, path), other) == At(root, other)
  {
    InsertKeeps(root, LegacyParentLoc(root, path).value, Leaf(path), NewFile, other);
  }

  // ----- open -----

  /**
   * What `open(path, mode)` does and returns: a handle in the mode on the
   * node that is there, or on the file it created; when creation fails, an
   * error handle saying `permission denied` with the last segment.
   */
  predicate LegacyOpenOutcome(before: Node, after: Node, path: string, mode: string, fh: FileHandle) {
    var found := LegacyGetSpec(before, path, true);
    if found.Pointer? then after == before && fh.file == Some(found.loc) && fh.mode == mode
    else if LegacyCreatable(before, path) then
      after == LegacyCreated(before, path) && LegacyGetSpec(after, path, true).Pointer?
      && fh.file == Some(LegacyGetSpec(after, path, true).loc) && fh.mode == mode
    else after == before && fh.mode == "error" && fh.error == "permission denied: " + Leaf(path)
  }

  /** `open` throws: the path is missing and its `create` throws. */
  predicate LegacyOpenThrows(root: Node, path: string) {
    LegacyGetSpec(root, path, true).NotFound? && LegacyThrows(root, path)
  }

  /** `create` keeps every file as it was and adds exactly one node, the new empty file. */
  lemma LegacyCreatedGrows(root: Node, path: string)
    requires LegacyCreatable(root, path)
    ensures Grows(root, LegacyCreated(root, path))
  {
    var parent := LegacyParentLoc(root, path).value;
    var root' := LegacyCreated(root, path);
    forall loc | At(root, loc).Some?
      ensures At(root', loc).Some?
      ensures At(root, loc).value.File? ==> At(root', loc) == At(root, loc)
    {
      LegacyCreateKeeps(root, path, loc);
      if At(root, loc).value.File? && loc <= parent {
        if loc == parent {
          assert At(root, parent).value.Dir?;
        } else {
          BelowFile(root, loc, parent);
        }
      }
    }
    InsertFinds(root, parent, Leaf(path), NewFile);
    forall loc | At(root', loc).Some? && At(root, loc).None?
      ensures At(root', loc) == Some(NewFile)
    {
      InsertOnlyAdds(root, parent, Leaf(path), NewFile, loc);
      if parent + [Leaf(path)] != loc {
        BelowFile(root', parent + [Leaf(path)], loc);
      }
    }
  }

  /**
   * After `open` in the default mode the tree has only grown, and a handle
   * that is not an error handle appends to a node of the tree.
   */
  lemma LegacyOpenKeeps(before: Node, after: Node, path: string, fh: FileHandle)
    requires LegacyOpenOutcome(before, after, path, "append", fh)
    ensures Grows(before, after)
    ensures fh.mode != "error" ==> fh.mode == "append" && fh.file.Some? && At(after, fh.file.value).Some?
  {
    if LegacyGetSpec(before, path, true).NotFound? && LegacyCreatable(before, path) {
      LegacyCreatedGrows(before, path);
    }
  }

  class LegacyFileSystem {
    /** `this.files['/']` */
    const store: Store

    /** `new FileSystem(files)`: the tree built from the description's `'/'` entry. */
    constructor(files: Dict<Desc>)
      requires "/" in CreateFileSystem(files).vals
      ensures store.root == CreateFileSystem(files).vals["/"] && fresh(store)
    {
      store := new Store(CreateFileSystem(files).vals["/"]);
    }

    /** `get(path, pointer)` */
    method Get(path: string, pointer: bool) returns (r: GetResult)
      ensures r == LegacyGetSpec(store.root, path, pointer)
    {
      var root := store.root;
      var parts := Split(path, '/');
      var position: Loc := [];
      var parent: Loc := [];
      var fullPath: seq<string> := [];
      var i := 0;
      var notfound := false;
      while i < |parts| && !notfound
        invariant 0 <= i <= |parts|
        invariant notfound ==> LegacyWalk(root, parts) == None
        invariant !notfound ==> LegacyWalk(root, parts[..i]) == Some(Position(position, parent, fullPath))
      {
        assert parts[..i + 1][..i] == parts[..i];
        var p := parts[i];
        if p == "" || p == "." {
        } else if p == ".." {
          position := parent;
          if |fullPath| > 0 {
            fullPath := fullPath[..|fullPath| - 1];
          }
        } else {
          var node := At(root, position);
          if node.Some? && node.value.Dir? && p in node.value.children.vals {
            parent := position;
            position := position + [p];
            fullPath := fullPath + [p];
          } else {
            LegacyWalkNone(root, parts, i + 1);
            notfound := true;
          }
        }
        i := i + 1;
      }
      if notfound {
        return NotFound;
      }
      assert parts[..i] == parts;
      LegacyWalkInTree(root, parts);
      if pointer {
        return Pointer(position);
      }
      return Snapshot(At(root, position).value, Absolute(fullPath), parts[|parts| - 1]);
    }

    /** `has(path)`: `get(path)` is not `false`, which holds exactly when a live node is found. */
    predicate Has(path: string)
      reads store
      ensures Has(path) <==> LegacyGetSpec(store.root, path, true).Pointer?
    {
      LegacyGetSpec(store.root, path, false) != NotFound
    }

    /** `create(path, pointer)` */
    method Create(path: string, pointer: bool) returns (r: Option<GetResult>)
      requires !LegacyThrows(store.root, path)
      modifies store
      ensures LegacyCreateOutcome(old(store.root), store.root, path, pointer, r)
    {
      var file := Leaf(path);
      var directory := Get(ParentPath(path), true);
      if directory.NotFound? || !At(store.root, directory.loc).value.writeable {
        return Some(NotFound);
      }
      var node := At(store.root, directory.loc).value;
      if file !in node.children.vals {
        store.root := Insert(store.root, directory.loc, file, NewFile);
        var found := Get(path, pointer);
        return Some(found);
      }
      return None;
    }

    /** `open(path, mode)`: a legacy handle, born closed exactly when it is an error handle. */
    method Open(path: string, mode: string) returns (fh: FileHandle)
      requires !LegacyOpenThrows(store.root, path)
      modifies store
      ensures fresh(fh) && fh.version == Legacy && fh.store == store && fh.Valid()
      ensures fh.closed <==> fh.mode == "error"
      ensures LegacyOpenOutcome(old(store.root), store.root, path, mode, fh)
    {
      var file := Get(path, true);
      if file.NotFound? {
        if LegacyCreatable(store.root, path) {
          LegacyMissingHasName(store.root, path);
          LegacyCreateThenGet(store.root, path);
        }
        var created := Create(path, true);
        if created.None? || created.value.NotFound? {
          fh := new FileHandle(Legacy, store, None, "error", "permission denied: " + Leaf(path));
          return;
        }
        fh := new FileHandle(Legacy, store, Some(created.value.loc), mode, "");
        return;
      }
      fh := new FileHandle(Legacy, store, Some(file.loc), mode, "");
    }
  }
}
