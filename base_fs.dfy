/**
 * What every mounted file system of cmsh inherits from `BaseFileSystem`
 * (cmsh/classes/fileSystems/BaseFileSystem.js): the lexical path
 * normalisation `resolvePath`, the segment-by-segment walk `get`, `has`,
 * and `_createFileSystem`, which builds a tree from a plain description.
 */
module BaseFs {
  import opened Wrappers
  import opened Dict
  import opened Text
  import opened Tree

  // ----- resolvePath -----

  /** A segment that names a child: not empty, `.` or `..`. */
  predicate Proper(p: string) {
    p != "" && p != "." && p != ".."
  }

  /** One segment applied to the stack of names below the root. */
  function Push(stack: seq<string>, p: string): seq<string> {
    if p == "" || p == "." then stack
    else if p == ".." then (if stack == [] then [] else stack[..|stack| - 1])
    else stack + [p]
  }

  /** The names left after the segments, in order. */
  function Normalise(parts: seq<string>): (stack: seq<string>)
    ensures forall i :: 0 <= i < |stack| ==> Proper(stack[i]) && stack[i] in parts
    decreases |parts|
  {
    if parts == [] then []
    else
      var front := Normalise(parts[..|parts| - 1]);
      assert forall x :: x in parts[..|parts| - 1] ==> x in parts;
      Push(front, parts[|parts| - 1])
  }

  /** `fullPath.length === 1 ? '/' : fullPath.join('/')` with `fullPath = ['', ...stack]`. */
  function Absolute(stack: seq<string>): string {
    if stack == [] then "/" else Join([""] + stack, "/")
  }

  function ResolvedPath(path: string): string {
    Absolute(Normalise(Split(path, '/')))
  }

  /** `resolvePath(path)` */
  method ResolvePath(path: string) returns (r: string)
    ensures r == ResolvedPath(path)
  {
    var parts := Split(path, '/');
    var fullPath := [""];
    var i := 0;
    while i < |parts|
      invariant 0 <= i <= |parts|
      invariant fullPath == [""] + Normalise(parts[..i])
    {
      NormaliseStep(parts, i);
      ghost var stack := fullPath[1..];
      var p := parts[i];
      if p == "" || p == "." {
      } else if p == ".." {
        if |fullPath| > 1 {
          assert fullPath[..|fullPath| - 1] == [""] + stack[..|stack| - 1];
          fullPath := fullPath[..|fullPath| - 1];
        }
      } else {
        fullPath := fullPath + [p];
      }
      i := i + 1;
    }
    assert parts[..i] == parts;
    if |fullPath| == 1 {
      r := "/";
    } else {
      r := Join(fullPath, "/");
    }
  }

  /** One more segment pushed onto the names of the ones before it. */
  lemma NormaliseStep(parts: seq<string>, i: nat)
    requires i < |parts|
    ensures Normalise(parts[..i + 1]) == Push(Normalise(parts[..i]), parts[i])
  {
    assert parts[..i + 1][..i] == parts[..i];
  }

  /** Proper segments are kept as they are. */
  lemma {:induction false} NormaliseProper(s: seq<string>)
    requires forall i :: 0 <= i < |s| ==> Proper(s[i])
    ensures Normalise([""] + s) == s
    decreases |s|
  {
    if s == [] {
      assert [""][..0] == [];
    } else {
      var front := s[..|s| - 1];
      NormaliseProper(front);
      assert ([""] + s)[..|s|] == [""] + front;
      assert front + [s[|s| - 1]] == s;
    }
  }

  /** The separator never occurs in the names of a normalised path. */
  lemma NormaliseNoSlash(path: string)
    ensures forall i :: 0 <= i < |Normalise(Split(path, '/'))| ==> '/' !in Normalise(Split(path, '/'))[i]
  {
  }

  /**
   * A resolved path is `/`, or splits into an empty first segment followed
   * by proper names only: it starts with `/` and has no empty, `.` or `..`
   * segment.
   */
  lemma ResolvedShape(path: string)
    ensures var r := ResolvedPath(path);
      && r != [] && r[0] == '/'
      && (r == "/" || (Split(r, '/')[0] == "" && |Split(r, '/')| >= 2
                       && forall i :: 1 <= i < |Split(r, '/')| ==> Proper(Split(r, '/')[i])))
  {
    var stack := Normalise(Split(path, '/'));
    if stack != [] {
      NormaliseNoSlash(path);
      SplitJoin([""] + stack, '/');
      assert Join([""] + stack, "/") == "" + "/" + Join(stack, "/") by {
        assert ([""] + stack)[1..] == stack;
      }
      assert Split(ResolvedPath(path), '/') == [""] + stack;
    }
  }

  /** Resolving a resolved path changes nothing. */
  lemma ResolveIdempotent(path: string)
    ensures ResolvedPath(ResolvedPath(path)) == ResolvedPath(path)
  {
    var stack := Normalise(Split(path, '/'));
    if stack == [] {
      SplitAtFirst("", '/', "");
      assert "" + ['/'] + "" == "/";
      SplitNoSep("", '/');
      assert Normalise(["", ""]) == [] by {
        assert ["", ""][..1] == [""];
        assert [""][..0] == [];
      }
    } else {
      NormaliseNoSlash(path);
      SplitJoin([""] + stack, '/');
      NormaliseProper(stack);
    }
  }

  /** `..` at the root is ignored: `/a/../../b` is `/b`. */
  lemma NoClimbAboveRoot(a: string, b: string)
    requires Proper(a) && Proper(b) && '/' !in a && '/' !in b
    ensures ResolvedPath("/" + a + "/../../" + b) == "/" + b
  {
    var parts := ["", a, "..", "..", b];
    assert forall i :: 0 <= i < |parts| ==> '/' !in parts[i];
    SplitJoin(parts, '/');
    ClimbJoin(a, b);
    ClimbNormalise(a, b);
    assert Join([""] + [b], "/") == "" + "/" + Join([b], "/") by {
      assert ([""] + [b])[1..] == [b];
    }
    assert Join([b], "/") == b;
  }

  lemma ClimbJoin(a: string, b: string)
    ensures Join(["", a, "..", "..", b], "/") == "/" + a + "/../../" + b
  {
    var parts := ["", a, "..", "..", b];
    assert Join([b], "/") == b;
    assert Join(["..", b], "/") == ".." + "/" + b by { assert ["..", b][1..] == [b]; }
    assert Join(["..", "..", b], "/") == ".." + "/" + (".." + "/" + b) by { assert ["..", "..", b][1..] == ["..", b]; }
    assert Join([a, "..", "..", b], "/") == a + "/" + (".." + "/" + (".." + "/" + b)) by {
      assert [a, "..", "..", b][1..] == ["..", "..", b];
    }
    assert Join(parts, "/") == "" + "/" + (a + "/" + (".." + "/" + (".." + "/" + b))) by {
      assert parts[1..] == [a, "..", "..", b];
    }
  }

  lemma ClimbNormalise(a: string, b: string)
    requires Proper(a) && Proper(b)
    ensures Normalise(["", a, "..", "..", b]) == [b]
  {
    var parts := ["", a, "..", "..", b];
    assert Normalise(parts[..1]) == [] by { assert parts[..1] == [""] && [""][..0] == []; }
    assert Normalise(parts[..2]) == [a] by { assert parts[..2][..1] == parts[..1]; }
    assert Normalise(parts[..3]) == [] by { assert parts[..3][..2] == parts[..2]; }
    assert Normalise(parts[..4]) == [] by { assert parts[..4][..3] == parts[..3]; }
    assert parts[..4] == parts[..|parts| - 1];
  }

  // ----- get -----

  /** One round of the walk: the position after segment `p`, None once a segment failed. */
  function Step(root: Node, pos: Option<Loc>, p: string): Option<Loc> {
    if pos.None? then None
    else if p == "" then pos
    else
      var at := At(root, pos.value);
      if at.Some? && at.value.Dir? && p in at.value.children.vals then Some(pos.value + [p]) else None
  }

  /** The position after the segments. */
  function Walk(root: Node, parts: seq<string>): Option<Loc>
    decreases |parts|
  {
    if parts == [] then Some([]) else Step(root, Walk(root, parts[..|parts| - 1]), parts[|parts| - 1])
  }

  /** The non-empty segments, in order. */
  function Named(parts: seq<string>): (names: seq<string>)
    decreases |parts|
  {
    if parts == [] then []
    else
      var front := Named(parts[..|parts| - 1]);
      if parts[|parts| - 1] == "" then front else front + [parts[|parts| - 1]]
  }

  /**
   * The walk ignores empty segments and succeeds exactly when the node named
   * by the other segments exists; it then stops at that node.
   */
  lemma {:induction false} WalkFinds(root: Node, parts: seq<string>)
    ensures Walk(root, parts) == if At(root, Named(parts)).Some? then Some(Named(parts)) else None
    decreases |parts|
  {
    if parts != [] {
      var front := parts[..|parts| - 1];
      var p := parts[|parts| - 1];
      WalkFinds(root, front);
      if p != "" {
        AtSnoc(root, Named(front), p);
      }
    }
  }

  /** The result of `get`: `false`, the live node, or a copy with `fullPath` and `basename`. */
  datatype GetResult = NotFound | Pointer(loc: Loc) | Snapshot(node: Node, fullPath: string, basename: string)

  function GetSpec(root: Node, path: string, pointer: bool): GetResult {
    var parts := Split(path, '/');
    var pos := Walk(root, parts);
    if pos.None? || At(root, pos.value).None? then NotFound
    else if pointer then Pointer(pos.value)
    else Snapshot(At(root, pos.value).value, path, parts[|parts| - 1])
  }

  /** `get(path, pointer)` of BaseFileSystem, on the tree `root` (`fs['/']`). */
  method Get(root: Node, path: string, pointer: bool) returns (r: GetResult)
    ensures r == GetSpec(root, path, pointer)
  {
    var parts := Split(path, '/');
    var position: Loc := [];
    var i := 0;
    var notfound := false;
    while i < |parts| && !notfound
      invariant 0 <= i <= |parts|
      invariant notfound ==> Walk(root, parts) == None
      invariant !notfound ==> Walk(root, parts[..i]) == Some(position) && At(root, position).Some?
    {
      assert parts[..i + 1][..i] == parts[..i];
      var p := parts[i];
      var node := At(root, position).value;
      if p == "" {
      } else if node.Dir? && p in node.children.vals {
        AtSnoc(root, position, p);
        position := position + [p];
      } else {
        WalkNone(root, parts, i + 1);
        notfound := true;
      }
      i := i + 1;
    }
    if notfound {
      return NotFound;
    }
    assert parts[..i] == parts;
    if pointer {
      return Pointer(position);
    }
    return Snapshot(At(root, position).value, path, parts[|parts| - 1]);
  }

  /** Once the walk has failed it stays failed. */
  lemma {:induction false} WalkNone(root: Node, parts: seq<string>, i: nat)
    requires i <= |parts| && Walk(root, parts[..i]) == None
    ensures Walk(root, parts) == None
    decreases |parts| - i
  {
    if i < |parts| {
      assert parts[..i + 1][..i] == parts[..i];
      WalkNone(root, parts, i + 1);
    } else {
      assert parts[..i] == parts;
    }
  }

  /** `has(path)`: `get(path)` is not `false`. */
  predicate Has(root: Node, path: string) {
    GetSpec(root, path, false) != NotFound
  }

  /** `has` holds exactly when the node named by the non-empty segments exists. */
  lemma HasExactly(root: Node, path: string)
    ensures Has(root, path) <==> At(root, Named(Split(path, '/'))).Some?
  {
    WalkFinds(root, Split(path, '/'));
  }

  /** A successful copy reports the given path and its last segment, and holds the node there. */
  lemma SnapshotOf(root: Node, path: string)
    requires Has(root, path)
    ensures var r := GetSpec(root, path, false);
      r.Snapshot? && r.fullPath == path && r.basename == LastSegment(path, '/')
      && Some(r.node) == At(root, Named(Split(path, '/')))
  {
    WalkFinds(root, Split(path, '/'));
  }

  // ----- _createFileSystem -----

  /**
   * A value of a tree description: an object with `children` (and maybe
   * `writeable`, None when it is missing or not a boolean), a string, a
   * function, or anything else.
   */
  datatype Desc =
    | DirDesc(writeable: Option<bool>, children: Dict<Desc>)
    | StringDesc(text: string)
    | FunctionDesc(name: string)
    | OtherDesc

  /** The node a description value becomes, None when the key is skipped. */
  function Convert(d: Desc): Option<Node>
    decreases d, 0
  {
    match d
    case DirDesc(w, ch) => Some(Dir(w == Some(true), BuildKeys(ch, ch.keys)))
    case StringDesc(s) => Some(File(false, false, Text(s)))
    case FunctionDesc(f) => Some(File(false, true, Program(f)))
    case OtherDesc => None
  }

  /** The `reduce` over the first keys of a description. */
  function BuildKeys(files: Dict<Desc>, keys: seq<string>): Dict<Node>
    decreases files, |keys|
  {
    if keys == [] then Empty()
    else
      var result := BuildKeys(files, keys[..|keys| - 1]);
      var k := keys[|keys| - 1];
      if k in files.vals then
        match Convert(files.vals[k])
        case Some(n) => result.Put(k, n)
        case None => result
      else result
  }

  /** `_createFileSystem(files)`, and the constructor of the app and shell.js FileSystem. */
  function CreateFileSystem(files: Dict<Desc>): Dict<Node> {
    BuildKeys(files, files.keys)
  }

  /**
   * Each key of the description gets the node its value converts to; keys
   * whose value is neither a directory, a string nor a function are left out.
   */
  lemma {:induction false} BuildKeysEntries(files: Dict<Desc>, keys: seq<string>, k: string)
    requires forall i :: 0 <= i < |keys| ==> keys[i] in files.vals
    ensures var r := BuildKeys(files, keys);
      (k in r.vals <==> k in keys && Convert(files.vals[k]).Some?)
      && (k in r.vals ==> r.vals[k] == Convert(files.vals[k]).value)
    ensures BuildKeys(files, keys).Valid()
    decreases |keys|
  {
    if keys != [] {
      var front := keys[..|keys| - 1];
      BuildKeysEntries(files, front, k);
      assert forall x :: x in keys <==> x in front || x == keys[|keys| - 1];
    }
  }

  /**
   * The kinds `_createFileSystem` gives: a directory is writeable only when
   * its `writeable` is `true`, a string becomes a read-only plain file and a
   * function a read-only executable; any other value gives no entry.
   */
  lemma CreatedKinds(files: Dict<Desc>, k: string)
    requires files.Valid()
    ensures var r := CreateFileSystem(files);
      && (k in r.vals <==> k in files.vals && !files.vals[k].OtherDesc?)
      && (k in r.vals && files.vals[k].DirDesc? ==>
            r.vals[k].Dir? && (r.vals[k].writeable <==> files.vals[k].writeable == Some(true))
            && r.vals[k].children == CreateFileSystem(files.vals[k].children))
      && (k in r.vals && files.vals[k].StringDesc? ==> r.vals[k] == File(false, false, Text(files.vals[k].text)))
      && (k in r.vals && files.vals[k].FunctionDesc? ==> r.vals[k] == File(false, true, Program(files.vals[k].name)))
  {
    BuildKeysEntries(files, files.keys, k);
  }
}
