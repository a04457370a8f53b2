/**
 * The mounted file systems of cmsh. `TmpFileSystem`
 * (cmsh/classes/fileSystems/TmpFileSystem.js) and `WebStorageFileSystem`
 * (cmsh/classes/fileSystems/WebStorageFileSystem.js) share their `create`
 * and `open`; the web-storage one wraps its handles so that every write and
 * close is followed by a `_sync` of the whole tree to `localStorage`,
 * under the one key all web-storage file systems share. The
 * JavaScript and HTTP file systems only take part through the inherited
 * path walk: their trees come from an import and a fetch.
 */
module Backends {
  import opened Wrappers
  import opened Dict
  import opened Text
  import opened Tree
  import opened BaseFs
  import opened Handle

  /** The `fsType` of a mounted file system: `jfs`, `httpfs`, `wsfs` and `tmpfs`. */
  datatype Kind = Jfs | Httpfs | Wsfs | Tmpfs

  /** `{'/': {writeable: true, children: {}}}`, the description a writable file system starts from. */
  function InitialDesc(): Dict<Desc> {
    Empty<Desc>().Put("/", DirDesc(Some(true), Empty()))
  }

  /** A fresh writable file system has a writeable, empty root directory. */
  lemma InitialRoot()
    ensures "/" in CreateFileSystem(InitialDesc()).vals
    ensures CreateFileSystem(InitialDesc()).vals["/"] == Dir(true, Empty())
  {
    CreatedKinds(InitialDesc(), "/");
    assert CreateFileSystem(Empty<Desc>()) == Empty<Node>();
  }

  /** The node `create` inserts: `{type: 'file', writeable: true, content: ''}`. */
  const NewFile := File(true, false, Text(""))

  // ----- _createFromObject -----

  /** `parts` without its last element, after `parts.pop()`. */
  function ParentParts(path: string): seq<string> {
    var parts := Split(path, '/');
    parts[..|parts| - 1]
  }

  /** The name `create` inserts, the popped last segment. */
  function Leaf(path: string): string {
    LastSegment(path, '/')
  }

  /** `parts.join('/')`, the directory `create` looks up. */
  function ParentPath(path: string): string {
    Join(ParentParts(path), "/")
  }

  /** The location the directory lookup finds. */
  function ParentLoc(root: Node, path: string): Option<Loc> {
    Walk(root, Split(ParentPath(path), '/'))
  }

  /** The directory lookup succeeds and its node has `writeable === true`. */
  predicate WriteableParent(root: Node, path: string) {
    var loc := ParentLoc(root, path);
    loc.Some? && At(root, loc.value).Some? && At(root, loc.value).value.writeable
  }

  /** `create` throws here: the writeable "directory" is a file, which has no `children`. */
  predicate Throws(root: Node, path: string) {
    WriteableParent(root, path) && At(root, ParentLoc(root, path).value).value.File?
  }

  /** `create` inserts: a writeable directory without a child of that name. */
  predicate Creatable(root: Node, path: string) {
    WriteableParent(root, path) && At(root, ParentLoc(root, path).value).value.Dir?
    && Leaf(path) !in At(root, ParentLoc(root, path).value).value.children.vals
  }

  /** The tree after the insertion. */
  function Created(root: Node, path: string): Node
    requires Creatable(root, path)
  {
    Insert(root, ParentLoc(root, path).value, Leaf(path), NewFile)
  }

  /**
   * The path splits into the directory's segments and the leaf, and the
   * joined directory path splits back into those segments (into one empty
   * segment when there are none).
   */
  lemma ParentSplit(path: string)
    ensures Split(path, '/') == ParentParts(path) + [Leaf(path)]
    ensures Split(ParentPath(path), '/') == if ParentParts(path) == [] then [""] else ParentParts(path)
  {
    var parts := Split(path, '/');
    assert parts == parts[..|parts| - 1] + [parts[|parts| - 1]];
    var front := ParentParts(path);
    if front == [] {
      assert Split("", '/') == [""];
    } else {
      assert forall i :: 0 <= i < |front| ==> front[i] == parts[i];
      SplitJoin(front, '/');
    }
  }

  /** Looking up the joined parent segments walks the same way as the segments themselves. */
  lemma ParentWalk(root: Node, path: string)
    ensures ParentLoc(root, path) == Walk(root, ParentParts(path))
  {
    ParentSplit(path);
    if ParentParts(path) == [] {
      assert [""][..0] == [];
    }
  }

  /** The walk to the new file is the walk to its directory and one step more. */
  lemma WalkLeaf(root: Node, path: string)
    ensures Walk(root, Split(path, '/')) == Step(root, ParentLoc(root, path), Leaf(path))
  {
    ParentWalk(root, path);
    ParentSplit(path);
    var parts := Split(path, '/');
    assert parts[..|parts| - 1] == ParentParts(path);
  }

  /** A path that is missing although its directory exists ends in a name, not in a slash. */
  lemma MissingHasName(root: Node, path: string)
    requires GetSpec(root, path, true).NotFound? && WriteableParent(root, path)
    ensures Leaf(path) != ""
  {
    WalkLeaf(root, path);
  }

  /**
   * After a successful `create` the new file is found under the path, as a
   * writeable empty file, in the directory that was looked up.
   */
  lemma CreateThenGet(root: Node, path: string)
    requires Creatable(root, path) && Leaf(path) != ""
    ensures var loc := ParentLoc(root, path).value + [Leaf(path)];
      GetSpec(Created(root, path), path, true) == Pointer(loc)
      && At(Created(root, path), loc) == Some(NewFile)
  {
    var parent := ParentLoc(root, path).value;
    var root' := Created(root, path);
    var front := ParentParts(path);
    InsertFinds(root, parent, Leaf(path), NewFile);
    ParentWalk(root, path);
    WalkFinds(root, front);
    WalkFinds(root', front);
    assert Walk(root', front) == Some(parent);
    ParentWalk(root', path);
    WalkLeaf(root', path);
    AtSnoc(root', parent, Leaf(path));
    assert Walk(root', Split(path, '/')) == Some(parent + [Leaf(path)]);
  }

  /** `create` refuses a path that already names a file or directory. */
  lemma ExistingNotCreatable(root: Node, path: string)
    requires GetSpec(root, path, true).Pointer? && Leaf(path) != ""
    ensures !Creatable(root, path)
  {
    WalkLeaf(root, path);
    var pos := ParentLoc(root, path);
    if pos.Some? {
      AtSnoc(root, pos.value, Leaf(path));
    }
  }

  /**
   * `create` never overwrites and changes nothing else: every node that was
   * there is still there, and every node off the path to the new file is
   * the same.
   */
  lemma CreateKeeps(root: Node, path: string, other: Loc)
    requires Creatable(root, path) && At(root, other).Some?
    ensures At(Created(root, path), other).Some?
    ensures !(other <= ParentLoc(root, path).value) ==> At(Created(root, path), other) == At(root, other)
  {
    InsertKeeps(root, ParentLoc(root, path).value, Leaf(path), NewFile, other);
  }

  /**
   * What `create(path, pointer)` does to the tree and returns: `undefined`
   * without change for the JavaScript and HTTP file systems; otherwise the
   * lookup of the inserted file, or `false` with no change when the
   * directory is missing, not writeable or already has the name.
   */
  predicate CreateOutcome(kind: Kind, before: Node, after: Node, path: string, pointer: bool, r: Option<GetResult>) {
    if kind == Jfs || kind == Httpfs then r == None && after == before
    else if Creatable(before, path) then after == Created(before, path) && r == Some(GetSpec(after, path, pointer))
    else after == before && r == Some(NotFound)
  }

  /**
   * What `open(path, mode)` does to the tree and which handle it returns: a
   * handle in the mode on the node that is there, or on the file it created;
   * when creation fails, an error handle saying `permission denied` with the
   * last segment.
   */
  predicate OpenOutcome(before: Node, after: Node, path: string, mode: string, fh: FileHandle) {
    var found := GetSpec(before, path, true);
    if found.Pointer? then after == before && fh.file == Some(found.loc) && fh.mode == mode
    else if Creatable(before, path) then
      after == Created(before, path) && GetSpec(after, path, true).Pointer?
      && fh.file == Some(GetSpec(after, path, true).loc) && fh.mode == mode
    else after == before && fh.mode == "error" && fh.error == "permission denied: " + Leaf(path)
  }

  /** Every node of `before` is still there in `after`, and every file is unchanged. */
  ghost predicate Keeps(before: Node, after: Node) {
    forall loc :: At(before, loc).Some? ==>
      At(after, loc).Some? && (At(before, loc).value.File? ==> At(after, loc) == At(before, loc))
  }

  /** `create` keeps every file as it was. */
  lemma CreatedKeeps(root: Node, path: string)
    requires Creatable(root, path)
    ensures Keeps(root, Created(root, path))
  {
    var parent := ParentLoc(root, path).value;
    forall loc | At(root, loc).Some?
      ensures At(Created(root, path), loc).Some?
      ensures At(root, loc).value.File? ==> At(Created(root, path), loc) == At(root, loc)
    {
      CreateKeeps(root, path, loc);
      if At(root, loc).value.File? && loc <= parent {
        if loc == parent {
          assert At(root, parent).value.Dir?;
        } else {
          BelowFile(root, loc, parent);
        }
      }
    }
  }

  /** `Keeps`, and every node that is new is an empty writeable file. */
  ghost predicate Grows(before: Node, after: Node) {
    Keeps(before, after) && forall loc :: At(after, loc).Some? && At(before, loc).None? ==> At(after, loc) == Some(NewFile)
  }

  /** `create` adds exactly one node, the new empty file. */
  lemma CreatedGrows(root: Node, path: string)
    requires Creatable(root, path)
    ensures Grows(root, Created(root, path))
  {
    var parent := ParentLoc(root, path).value;
    var root' := Created(root, path);
    CreatedKeeps(root, path);
    InsertFinds(root, parent, Leaf(path), NewFile);
    forall loc | At(root', loc).Some? && At(root, loc).None?
      ensures At(root', loc) == Some(NewFile)
    {
      InsertOnlyAdds(root, parent, Leaf(path), NewFile, loc);
      if parent + [Leaf(path)] != loc {
        BelowFile(root', parent + [Leaf(path)], loc);
      }
    }
  }

  /** A tree that did not change has grown. */
  lemma GrowsRefl(root: Node)
    ensures Grows(root, root)
  {
  }

  /** Growing twice is growing once. */
  lemma GrowsTrans(a: Node, b: Node, c: Node)
    requires Grows(a, b) && Grows(b, c)
    ensures Grows(a, c)
  {
    forall loc | At(c, loc).Some? && At(a, loc).None?
      ensures At(c, loc) == Some(NewFile)
    {
      if At(b, loc).Some? {
        assert At(b, loc) == Some(NewFile);
      }
    }
  }

  /**
   * After `open` every file that was there is unchanged and the only new node
   * is an empty file, and a handle with a node is on the node the path
   * names: the file that was there, or a new empty file.
   */
  lemma OpenKeeps(before: Node, after: Node, path: string, mode: string, fh: FileHandle)
    requires OpenOutcome(before, after, path, mode, fh)
    ensures Grows(before, after)
    ensures fh.mode != "error" ==> var loc := Named(Split(path, '/'));
      fh.file == Some(loc) && At(after, loc).Some?
      && (At(before, loc).Some? && At(before, loc).value.File? ==> At(after, loc) == At(before, loc))
      && (At(before, loc).None? ==> At(after, loc) == Some(NewFile))
  {
    var found := GetSpec(before, path, true);
    WalkFinds(before, Split(path, '/'));
    if !found.Pointer? && Creatable(before, path) {
      MissingHasName(before, path);
      CreateThenGet(before, path);
      CreatedGrows(before, path);
      WalkFinds(after, Split(path, '/'));
    }
  }

  /**
   * `open` does not throw: the path is there, or the file system is a
   * writable one whose `create` does not throw. The JavaScript and HTTP file
   * systems open a missing path on an un-awaited promise, which is counted
   * as throwing. The HTTP file system calls the node it found
   * (`file(path)`), and a directory or a file node is not callable, so its
   * `open` always throws on the trees modelled here.
   */
  predicate Opens(kind: Kind, root: Node, path: string) {
    (kind != Httpfs && GetSpec(root, path, true).Pointer?) || ((kind == Tmpfs || kind == Wsfs) && !Throws(root, path))
  }

  /** No path opens on the HTTP file system. */
  lemma HttpOpenThrows(root: Node, path: string)
    ensures !Opens(Httpfs, root, path)
  {
  }

  /** The contents of the storage: the saved tree, and the number of saves so far. */
  datatype StorageState = StorageState(files: Option<Node>, saves: nat)

  /**
   * The browser's `localStorage` as the web-storage file systems use it:
   * the tree saved under the one key `'files'`, None when nothing was
   * saved, and the number of saves. Every web-storage file system reads and
   * writes this same key.
   */
  class LocalStorage {
    var files: Option<Node>
    var saves: nat

    /** What the storage holds now. */
    function State(): StorageState
      reads this
    {
      StorageState(files, saves)
    }

    /** The storage as the page finds it, holding `files`. */
    constructor(files: Option<Node>)
      ensures this.files == files && saves == 0
    {
      this.files := files;
      saves := 0;
    }
  }

  /** The tree a web-storage file system starts from: the saved one, or a writeable, empty root. */
  function LoadedRoot(files: Option<Node>): Node {
    if files.Some? then files.value else Dir(true, Empty())
  }

  class Backend {
    const kind: Kind
    /** `this.files['/']` */
    const store: Store
    /** The `localStorage` of the page, shared by all file systems; only a web-storage one uses it. */
    const local: LocalStorage

    /** `new TmpFileSystem()`: a writeable, empty root. */
    constructor Tmp(local: LocalStorage)
      ensures kind == Tmpfs && store.root == Dir(true, Empty()) && this.local == local
      ensures fresh(store)
    {
      InitialRoot();
      kind := Tmpfs;
      store := new Store(CreateFileSystem(InitialDesc()).vals["/"]);
      this.local := local;
    }

    /** `new WebStorageFileSystem()`: the tree saved under `'files'`, or a writeable, empty root when there is none. */
    constructor WebStorage(local: LocalStorage)
      ensures kind == Wsfs && store.root == LoadedRoot(local.files) && this.local == local
      ensures fresh(store)
    {
      InitialRoot();
      kind := Wsfs;
      store := new Store(if local.files.Some? then local.files.value else CreateFileSystem(InitialDesc()).vals["/"]);
      this.local := local;
    }

    /** A JavaScript or HTTP file system, with the tree its import or index yields. */
    constructor Loaded(kind: Kind, root: Node, local: LocalStorage)
      requires kind == Jfs || kind == Httpfs
      ensures this.kind == kind && store.root == root && this.local == local
      ensures fresh(store)
    {
      this.kind := kind;
      store := new Store(root);
      this.local := local;
    }

    /** `get(path, pointer)`, the inherited walk. */
    method Get(path: string, pointer: bool) returns (r: GetResult)
      ensures r == GetSpec(store.root, path, pointer)
    {
      r := BaseFs.Get(store.root, path, pointer);
    }

    /**
     * `create(path, pointer)`: `undefined` for the JavaScript and HTTP file
     * systems; otherwise `false` without change unless the directory is
     * writeable and the name unused, and then the lookup of the new file.
     */
    method Create(path: string, pointer: bool) returns (r: Option<GetResult>)
      requires (kind == Tmpfs || kind == Wsfs) ==> !Throws(store.root, path)
      modifies store
      ensures CreateOutcome(kind, old(store.root), store.root, path, pointer, r)
    {
      if kind == Jfs || kind == Httpfs {
        return None;
      }
      var file := Leaf(path);
      var directory := BaseFs.Get(store.root, ParentPath(path), true);
      if directory.NotFound? || !At(store.root, directory.loc).value.writeable {
        return Some(NotFound);
      }
      var node := At(store.root, directory.loc).value;
      if file !in node.children.vals {
        store.root := Insert(store.root, directory.loc, file, NewFile);
        var found := BaseFs.Get(store.root, path, pointer);
        return Some(found);
      }
      return Some(NotFound);
    }

    /**
     * `open(path, mode)`: a handle on the live file, created when missing;
     * when that fails, a born-closed error handle saying `permission denied`
     * with the last segment. The web-storage file system wraps the handle.
     */
    method Open(path: string, mode: string) returns (h: Opened)
      requires Opens(kind, store.root, path)
      modifies store
      ensures fresh(h.Handle())
      ensures h.Handle().version == Cmsh && h.Handle().store == store && h.Handle().Valid()
      ensures h.Handle().closed <==> h.Handle().mode == "error"
      ensures OpenOutcome(old(store.root), store.root, path, mode, h.Handle())
      ensures h.Synced? <==> kind == Wsfs
      ensures h.Synced? ==> h.wh.fs == this && fresh(h.wh) && h.wh.Valid()
    {
      var file := BaseFs.Get(store.root, path, true);
      var fh: FileHandle;
      if file.NotFound? {
        if Creatable(store.root, path) {
          MissingHasName(store.root, path);
          CreateThenGet(store.root, path);
        }
        var created := Create(path, true);
        if created.value.NotFound? {
          fh := new FileHandle(Cmsh, store, None, "error", "permission denied: " + Leaf(path));
        } else {
          fh := new FileHandle(Cmsh, store, Some(created.value.loc), mode, "");
        }
      } else {
        fh := new FileHandle(Cmsh, store, Some(file.loc), mode, "");
      }
      if kind == Wsfs {
        var wh := new WebStorageFileHandle(this, fh);
        h := Synced(wh);
      } else {
        h := Plain(fh);
      }
    }

    /**
     * `_sync()`: the whole tree is saved under `'files'`, replacing what any
     * web-storage file system saved there before.
     */
    method Sync()
      modifies local
      ensures local.saves == old(local.saves) + 1 && local.files == Some(store.root)
    {
      local.saves := local.saves + 1;
      local.files := Some(store.root);
    }
  }

  /** What `open` of a mounted file system gives: a handle, or a web-storage wrapper around one. */
  datatype Opened = Plain(fh: FileHandle) | Synced(wh: WebStorageFileHandle) {
    function Handle(): FileHandle {
      if Plain? then fh else wh.fh
    }
  }

  /** `WebStorageFileHandle`: delegates to the handle and syncs the file system after each write and close. */
  class WebStorageFileHandle {
    const fs: Backend
    const fh: FileHandle

    ghost predicate Valid()
      reads this, fh
    {
      fh.store == fs.store && fh.Valid()
    }

    constructor(fs: Backend, fh: FileHandle)
      requires fh.store == fs.store && fh.Valid()
      ensures this.fs == fs && this.fh == fh && Valid()
    {
      this.fs := fs;
      this.fh := fh;
    }

    /** `read(data)`: the handle's own. */
    function Read(): (r: ReadResult)
      requires Valid()
      reads this, fh, fh.store
      ensures r == fh.Read()
    {
      fh.Read()
    }

    /** `write(data)`: what the handle's write returns, after exactly one sync. */
    method Write(data: string) returns (r: int)
      requires Valid()
      modifies fs.local, fs.store
      ensures r == (if fh.Refuses() then 1 else 0)
      ensures fh.Refuses() ==> fs.store.root == old(fs.store.root)
      ensures !fh.Refuses() ==> fs.store.root == Written(old(fs.store.root), fh.file.value, data, !fh.written && fh.mode == "overwrite")
      ensures fs.local.saves == old(fs.local.saves) + 1 && fs.local.files == Some(fs.store.root)
    {
      r := fh.Write(data);
      fs.Sync();
    }

    /** `close()`: what the handle's close returns, after exactly one sync. */
    method Close() returns (r: Option<int>)
      requires Valid()
      modifies fs.local, fs.store, fh
      ensures Valid() && fh.closed
      ensures old(fh.closed) ==> r == Some(1) && fs.store.root == old(fs.store.root)
      ensures !old(fh.closed) ==> r == None && fs.store.root == Written(old(fs.store.root), fh.file.value, "\n", false)
      ensures fs.local.saves == old(fs.local.saves) + 1 && fs.local.files == Some(fs.store.root)
    {
      r := fh.Close();
      fs.Sync();
    }
  }
}
