/**
 * The cmsh file system (cmsh/classes/FileSystem.js): a mount table built
 * from an fstab, and `get`, `open` and `create` routed to the file system
 * mounted at the last mount point that is a prefix of the resolved path.
 */
module Mounts {
  import opened Wrappers
  import opened Dict
  import opened Text
  import opened Tree
  import opened BaseFs
  import opened Handle
  import opened Backends

  /** One line of the fstab. `automount` is None when the entry does not say. */
  datatype FstabEntry = FstabEntry(deviceSpec: string, mountPoint: string, fsType: string, options: string, automount: Option<bool>)

  /** The file system a type names, None for a type the switch does not know. */
  function KindOf(fsType: string): Option<Kind> {
    if fsType == "jfs" then Some(Jfs)
    else if fsType == "httpfs" then Some(Httpfs)
    else if fsType == "wsfs" then Some(Wsfs)
    else if fsType == "tmpfs" then Some(Tmpfs)
    else None
  }

  /** An entry is mounted unless `automount === false` or its type is unknown. */
  predicate Mounted(e: FstabEntry) {
    e.automount != Some(false) && KindOf(e.fsType).Some?
  }

  /** The mount table the constructor builds, with the kind mounted at each point, in `Object.keys` order. */
  function MountTable(fstab: seq<FstabEntry>): Dict<Kind>
    decreases |fstab|
  {
    if fstab == [] then Empty()
    else
      var table := MountTable(fstab[..|fstab| - 1]);
      var e := fstab[|fstab| - 1];
      if Mounted(e) then table.Put(e.mountPoint, KindOf(e.fsType).value) else table
  }

  /** A point is in the table exactly when some entry that is mounted names it. */
  lemma {:induction false} MountedIff(fstab: seq<FstabEntry>, mp: string)
    ensures MountTable(fstab).Valid()
    ensures mp in MountTable(fstab).vals <==> exists i :: 0 <= i < |fstab| && Mounted(fstab[i]) && fstab[i].mountPoint == mp
    decreases |fstab|
  {
    if fstab != [] {
      var front := fstab[..|fstab| - 1];
      MountedIff(front, mp);
      if mp in MountTable(fstab).vals && !(mp in MountTable(front).vals) {
        assert Mounted(fstab[|fstab| - 1]) && fstab[|fstab| - 1].mountPoint == mp;
      }
      if exists i :: 0 <= i < |fstab| && Mounted(fstab[i]) && fstab[i].mountPoint == mp {
        var i :| 0 <= i < |fstab| && Mounted(fstab[i]) && fstab[i].mountPoint == mp;
        if i < |fstab| - 1 {
          assert front[i] == fstab[i];
        }
      }
    }
  }

  /** A later entry for the same point replaces an earlier one: the last mounted entry decides the kind. */
  lemma {:induction false} LastEntryWins(fstab: seq<FstabEntry>, i: nat)
    requires i < |fstab| && Mounted(fstab[i])
    requires forall j :: i < j < |fstab| && Mounted(fstab[j]) ==> fstab[j].mountPoint != fstab[i].mountPoint
    ensures MountTable(fstab).Get(fstab[i].mountPoint) == KindOf(fstab[i].fsType)
    decreases |fstab|
  {
    if i < |fstab| - 1 {
      var front := fstab[..|fstab| - 1];
      assert front[i] == fstab[i];
      forall j | i < j < |front| && Mounted(front[j])
        ensures front[j].mountPoint != front[i].mountPoint
      {
        assert front[j] == fstab[j];
      }
      LastEntryWins(front, i);
    }
  }

  // ----- getFstab -----

  /** `${deviceSpec} on ${mountPoint} type ${fsType} (${options})` */
  function FstabLine(e: FstabEntry): string {
    e.deviceSpec + " on " + e.mountPoint + " type " + e.fsType + " (" + e.options + ")"
  }

  function FstabLines(fstab: seq<FstabEntry>): seq<string> {
    seq(|fstab|, i requires 0 <= i < |fstab| => FstabLine(fstab[i]))
  }

  /** `getFstab()`: one line per entry, joined with newlines. */
  function Fstab(fstab: seq<FstabEntry>): string {
    Join(FstabLines(fstab), "\n")
  }

  /** A field without a line break. */
  predicate OneLine(e: FstabEntry) {
    '\n' !in e.deviceSpec && '\n' !in e.mountPoint && '\n' !in e.fsType && '\n' !in e.options
  }

  /**
   * `getFstab` lists every entry, mounted or not, in order: its lines are
   * exactly the formatted entries.
   */
  lemma FstabListsEvery(fstab: seq<FstabEntry>)
    requires |fstab| >= 1
    requires forall i :: 0 <= i < |fstab| ==> OneLine(fstab[i])
    ensures Split(Fstab(fstab), '\n') == FstabLines(fstab)
    ensures forall i :: 0 <= i < |fstab| ==> Split(Fstab(fstab), '\n')[i] == FstabLine(fstab[i])
  {
    forall i | 0 <= i < |fstab|
      ensures '\n' !in FstabLines(fstab)[i]
    {
      var e := fstab[i];
      assert FstabLine(e) == e.deviceSpec + " on " + e.mountPoint + " type " + e.fsType + " (" + e.options + ")";
    }
    SplitJoin(FstabLines(fstab), '\n');
  }

  // ----- _getMountPoint and _prepare -----

  /**
   * `_getMountPoint(fp)`: the last key, in table order, that is a character
   * prefix of the path; None when none is.
   */
  function MountPoint(keys: seq<string>, fp: string): (r: Option<string>)
    ensures r.Some? <==> exists i :: 0 <= i < |keys| && StartsWith(fp, keys[i])
    ensures r.Some? ==> exists i :: 0 <= i < |keys| && keys[i] == r.value && StartsWith(fp, keys[i])
                                    && forall j :: i < j < |keys| ==> !StartsWith(fp, keys[j])
    decreases |keys|
  {
    if keys == [] then None
    else if StartsWith(fp, keys[|keys| - 1]) then Some(keys[|keys| - 1])
    else
      var r := MountPoint(keys[..|keys| - 1], fp);
      assert forall i :: 0 <= i < |keys| - 1 ==> keys[..|keys| - 1][i] == keys[i];
      r
  }

  /** The path the mounted file system sees: the rest after the mount point, with a leading `/`. */
  function InnerPath(fp: string, mp: string): (inner: string)
    requires StartsWith(fp, mp)
    ensures |inner| >= 1 && inner[0] == '/'
    ensures mp + inner == fp || mp + inner[1..] == fp
  {
    var rest := fp[|mp|..];
    assert fp == mp + rest;
    if StartsWith(rest, "/") then rest else "/" + rest
  }

  /** `_prepare(path)`: the resolved path, its mount point and the path inside the mount. */
  datatype Prepared = Prepared(fullPath: string, mountPoint: string, innerPath: string)

  /** Some mount point is a prefix of the resolved path, as `_prepare` needs (a `/` mount always is). */
  predicate Routable(keys: seq<string>, path: string) {
    MountPoint(keys, ResolvedPath(path)).Some?
  }

  function Prepare(keys: seq<string>, path: string): (r: Prepared)
    requires Routable(keys, path)
    ensures r.fullPath == ResolvedPath(path) && Some(r.mountPoint) == MountPoint(keys, r.fullPath)
    ensures r.mountPoint in keys && StartsWith(r.fullPath, r.mountPoint)
    ensures r.innerPath == InnerPath(r.fullPath, r.mountPoint)
  {
    var fp := ResolvedPath(path);
    var mp := MountPoint(keys, fp).value;
    Prepared(fp, mp, InnerPath(fp, mp))
  }

  /** Normalising before routing: preparing an already resolved path routes it the same way. */
  lemma PrepareNormalises(keys: seq<string>, path: string)
    requires Routable(keys, path)
    ensures Routable(keys, ResolvedPath(path))
    ensures Prepare(keys, ResolvedPath(path)) == Prepare(keys, path)
  {
    ResolveIdempotent(path);
  }

  /** With only a root mount, the mounted file system sees the resolved path itself. */
  lemma RootMountOnly(path: string)
    ensures Routable(["/"], path)
    ensures Prepare(["/"], path).innerPath == ResolvedPath(path)
  {
    ResolvedShape(path);
    var fp := ResolvedPath(path);
    assert StartsWith(fp, ["/"][0]);
    assert fp[1..] == [] || fp[1..][0] != '/' by {
      if fp != "/" {
        var parts := Split(fp, '/');
        assert parts[0] == "" && Proper(parts[1]);
        JoinSplit(fp, '/');
        assert fp == Join(parts, "/");
        assert fp[1..] == Join(parts[1..], "/");
      }
    }
  }

  /** A table with a `/` mount routes every path. */
  lemma RootRoutes(keys: seq<string>, path: string)
    requires "/" in keys
    ensures Routable(keys, path)
  {
    ResolvedShape(path);
    var i :| 0 <= i < |keys| && keys[i] == "/";
    assert StartsWith(ResolvedPath(path), keys[i]);
  }

  /** The last matching mount point wins, not the longest: `/mnt` is listed after `/mnt/data`. */
  lemma LastMatchNotLongest()
    ensures MountPoint(["/", "/mnt/data", "/mnt"], "/mnt/data/f") == Some("/mnt")
    ensures InnerPath("/mnt/data/f", "/mnt") == "/data/f"
  {
    assert StartsWith("/mnt/data/f", "/mnt");
  }

  /** Mount points match as character prefixes: `/mnt` also routes `/mntx`, as `/x`. */
  lemma CharacterPrefix()
    ensures MountPoint(["/", "/mnt"], "/mntx") == Some("/mnt")
    ensures InnerPath("/mntx", "/mnt") == "/x"
  {
    assert StartsWith("/mntx", "/mnt");
    assert "/mntx"[4..] == "x";
  }

  class FileSystem {
    const fstab: seq<FstabEntry>
    /** `this.mounts`: mount point to mounted file system. */
    const mounts: Dict<Backend>
    /** The page's `localStorage`, which every mounted file system is given. */
    const local: LocalStorage

    ghost predicate Valid() {
      mounts.Valid() && forall k :: k in mounts.vals ==> mounts.vals[k].local == local
    }

    /**
     * `new FileSystem(fstab)`: every entry that is mounted gets a new file
     * system of its type at its mount point, later entries replacing
     * earlier ones. Every web-storage file system starts from the one tree
     * saved under `'files'`, each in a tree of its own; a JavaScript or HTTP
     * one starts from the tree its device yields.
     */
    constructor(fstab: seq<FstabEntry>, local: LocalStorage, load: string -> Node)
      ensures this.fstab == fstab && this.local == local && Valid()
      ensures mounts.keys == MountTable(fstab).keys
      ensures forall k :: k in mounts.vals <==> k in MountTable(fstab).vals
      ensures forall k :: k in mounts.vals ==> mounts.vals[k].kind == MountTable(fstab).vals[k]
      ensures forall k :: k in mounts.vals && mounts.vals[k].kind == Wsfs ==> mounts.vals[k].store.root == LoadedRoot(local.files)
      ensures forall k :: k in mounts.vals && mounts.vals[k].kind == Tmpfs ==> mounts.vals[k].store.root == Dir(true, Empty())
    {
      var m := Empty<Backend>();
      var i := 0;
      while i < |fstab|
        invariant 0 <= i <= |fstab| && m.Valid()
        invariant m.keys == MountTable(fstab[..i]).keys
        invariant forall k :: k in m.vals <==> k in MountTable(fstab[..i]).vals
        invariant forall k :: k in m.vals ==> m.vals[k].kind == MountTable(fstab[..i]).vals[k] && m.vals[k].local == local
        invariant forall k :: k in m.vals && m.vals[k].kind == Wsfs ==> m.vals[k].store.root == LoadedRoot(local.files)
        invariant forall k :: k in m.vals && m.vals[k].kind == Tmpfs ==> m.vals[k].store.root == Dir(true, Empty())
      {
        assert fstab[..i + 1][..i] == fstab[..i];
        var e := fstab[i];
        if e.automount != Some(false) {
          var fs: Option<Backend> := None;
          if e.fsType == "jfs" {
            var b := new Backend.Loaded(Jfs, load(e.deviceSpec), local);
            fs := Some(b);
          } else if e.fsType == "httpfs" {
            var b := new Backend.Loaded(Httpfs, load(e.deviceSpec), local);
            fs := Some(b);
          } else if e.fsType == "wsfs" {
            var b := new Backend.WebStorage(local);
            fs := Some(b);
          } else if e.fsType == "tmpfs" {
            var b := new Backend.Tmp(local);
            fs := Some(b);
          }
          if fs.Some? {
            m := m.Put(e.mountPoint, fs.value);
          }
        }
        i := i + 1;
      }
      assert fstab[..i] == fstab;
      this.fstab := fstab;
      this.mounts := m;
      this.local := local;
    }

    /** The trees of the mounted file systems. */
    function Stores(): set<Store> {
      set k | k in mounts.vals :: mounts.vals[k].store
    }

    /** The mounted file systems. */
    function Backends(): set<Backend> {
      set k | k in mounts.vals :: mounts.vals[k]
    }

    /** The file system the path is routed to. */
    function Backing(path: string): Backend
      requires Valid() && Routable(mounts.keys, path)
    {
      mounts.vals[Prepare(mounts.keys, path).mountPoint]
    }

    /** The file system a path is routed to is one of the mounted ones. */
    lemma Mounted(path: string)
      requires Valid() && Routable(mounts.keys, path)
      ensures Backing(path) in Backends() && Backing(path).store in Stores()
    {
      var mp := Prepare(mounts.keys, path).mountPoint;
      assert mp in mounts.vals;
    }

    /** What `get` answers, in terms of the mounted trees. */
    function Found(path: string, pointer: bool): GetResult
      requires Valid() && Routable(mounts.keys, path)
      reads Backing(path).store
    {
      var b := GetSpec(Backing(path).store.root, Prepare(mounts.keys, path).innerPath, pointer);
      if pointer || b.NotFound? then b else b.(fullPath := ResolvedPath(path))
    }

    /**
     * `get(path, pointer)`: the mounted file system's answer for the inner
     * path; a copy's `fullPath` becomes the resolved absolute path, while a
     * live node and `false` pass through.
     */
    method Get(path: string, pointer: bool) returns (r: GetResult)
      requires Valid() && Routable(mounts.keys, path)
      ensures var b := GetSpec(Backing(path).store.root, Prepare(mounts.keys, path).innerPath, pointer);
        (pointer || b.NotFound?) ==> r == b
      ensures var b := GetSpec(Backing(path).store.root, Prepare(mounts.keys, path).innerPath, pointer);
        b.Snapshot? ==> r == b.(fullPath := ResolvedPath(path))
      ensures r == Found(path, pointer)
    {
      var p := Prepare(mounts.keys, path);
      r := mounts.vals[p.mountPoint].Get(p.innerPath, pointer);
      if pointer || r.NotFound? {
        return r;
      }
      r := r.(fullPath := p.fullPath);
    }

    /** `open(path, mode)`, by the mounted file system, on the inner path. */
    method Open(path: string, mode: string) returns (h: Opened)
      requires Valid() && Routable(mounts.keys, path)
      requires Opens(Backing(path).kind, Backing(path).store.root, Prepare(mounts.keys, path).innerPath)
      modifies Backing(path).store
      ensures fresh(h.Handle()) && h.Handle().store == Backing(path).store && h.Handle().Valid()
      ensures h.Handle().closed <==> h.Handle().mode == "error"
      ensures OpenOutcome(old(Backing(path).store.root), Backing(path).store.root, Prepare(mounts.keys, path).innerPath, mode, h.Handle())
      ensures h.Synced? <==> Backing(path).kind == Wsfs
      ensures h.Synced? ==> h.wh.fs == Backing(path) && fresh(h.wh) && h.wh.Valid()
    {
      var p := Prepare(mounts.keys, path);
      h := mounts.vals[p.mountPoint].Open(p.innerPath, mode);
    }

    /** `create(path, pointer)`, by the mounted file system, on the inner path. */
    method Create(path: string, pointer: bool) returns (r: Option<GetResult>)
      requires Valid() && Routable(mounts.keys, path)
      requires (Backing(path).kind == Tmpfs || Backing(path).kind == Wsfs) ==> !Throws(Backing(path).store.root, Prepare(mounts.keys, path).innerPath)
      modifies Backing(path).store
      ensures CreateOutcome(Backing(path).kind, old(Backing(path).store.root), Backing(path).store.root,
                            Prepare(mounts.keys, path).innerPath, pointer, r)
    {
      var p := Prepare(mounts.keys, path);
      r := mounts.vals[p.mountPoint].Create(p.innerPath, pointer);
    }
  }
}
