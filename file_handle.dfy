/**
 * The file handle of the three generations (cmsh/classes/FileHandle.js,
 * app/classes/FileHandle.js and the `FileHandle` class of shell.js). A
 * handle keeps the live node it was opened on, a mode, the flag `written`
 * (set to false and never changed) and whether it is closed; writes change
 * the node in place.
 */
module Handle {
  import opened Wrappers
  import opened Tree

  /** `Cmsh` is cmsh/classes/FileHandle.js, `Legacy` the handle of the app and of shell.js. */
  datatype Version = Cmsh | Legacy

  /** The text of the file at a location, when it holds text. */
  function TextAt(root: Node, loc: Loc): Option<string> {
    match At(root, loc)
    case Some(File(_, _, Text(s))) => Some(s)
    case _ => None
  }

  /**
   * A file node after `content = ''` (when `truncate`) and `content += data`.
   * Appending to a command or a remote file, and writing to a directory, are
   * not modelled: such a node is left as it is.
   */
  function WrittenNode(n: Node, data: string, truncate: bool): Node {
    match n
    case File(w, x, c) =>
      if truncate then File(w, x, Text(data))
      else if c.Text? then File(w, x, Text(c.text + data))
      else n
    case Dir(_, _) => n
  }

  /** The tree after writing `data` to the node at `loc`. */
  function Written(root: Node, loc: Loc, data: string, truncate: bool): Node {
    match At(root, loc)
    case Some(n) => Replace(root, loc, WrittenNode(n, data, truncate))
    case None => root
  }

  /** An overwriting write leaves exactly the data in the file, whatever it held. */
  lemma OverwriteLeavesData(root: Node, loc: Loc, data: string)
    requires At(root, loc).Some? && At(root, loc).value.File?
    ensures TextAt(Written(root, loc, data, true), loc) == Some(data)
  {
    AtReplace(root, loc, WrittenNode(At(root, loc).value, data, true));
  }

  /** An appending write adds the data after the old text. */
  lemma AppendAddsData(root: Node, loc: Loc, data: string)
    requires TextAt(root, loc).Some?
    ensures TextAt(Written(root, loc, data, false), loc) == Some(TextAt(root, loc).value + data)
  {
    AtReplace(root, loc, WrittenNode(At(root, loc).value, data, false));
  }

  /** A write changes nothing outside the file: other files and every location stay. */
  lemma WriteOnlyThere(root: Node, loc: Loc, data: string, truncate: bool, other: Loc)
    requires At(root, other).Some?
    ensures At(Written(root, loc, data, truncate), other).Some?
    ensures !(loc <= other) && !(other <= loc) ==> At(Written(root, loc, data, truncate), other) == At(root, other)
  {
    if At(root, loc).Some? {
      var n := At(root, loc).value;
      if !(loc <= other) && !(other <= loc) {
        AtReplaceElsewhere(root, loc, WrittenNode(n, data, truncate), other);
      }
      if n.File? {
        ReplaceKeepsLocations(root, loc, WrittenNode(n, data, truncate), other);
      } else {
        assert WrittenNode(n, data, truncate) == n;
        ReplaceSame(root, loc);
      }
    }
  }

  /** Putting back the node that is already there changes nothing. */
  lemma {:induction false} ReplaceSame(root: Node, loc: Loc)
    requires At(root, loc).Some?
    ensures Replace(root, loc, At(root, loc).value) == root
    decreases |loc|
  {
    if loc != [] {
      var c := root.children.vals[loc[0]];
      ReplaceSame(c, loc[1..]);
      assert root.children.Put(loc[0], c) == root.children by {
        assert root.children.vals[loc[0] := c] == root.children.vals;
      }
    }
  }

  /** Two overwriting writes in a row: only the second one's data is left. */
  lemma OverwriteTwice(root: Node, loc: Loc, a: string, b: string)
    requires At(root, loc).Some? && At(root, loc).value.File?
    ensures TextAt(Written(Written(root, loc, a, true), loc, b, true), loc) == Some(b)
  {
    AtReplace(root, loc, WrittenNode(At(root, loc).value, a, true));
    OverwriteLeavesData(Written(root, loc, a, true), loc, b);
  }

  /** What `read()` settles with. */
  datatype ReadResult =
    | Rejected(message: string)      // the promise is rejected with the handle's error
    | Fetched(url: string)           // the result of fetching a remote file
    | Resolved(content: Option<Content>)   // `file.content`, None for a directory

  class FileHandle {
    const version: Version
    const store: Store
    /** The live node, None for the `false` an error handle is made with. */
    const file: Option<Loc>
    const mode: string
    const written: bool
    const error: string
    var closed: bool

    /** Only an error handle has no node, and an error handle is closed. */
    ghost predicate Valid()
      reads this
    {
      (file.None? ==> mode == "error") && (mode == "error" ==> closed)
    }

    /** `new FileHandle(file, mode, error)`: born closed exactly when the mode is `'error'`. */
    constructor(version: Version, store: Store, file: Option<Loc>, mode: string, error: string)
      requires file.None? ==> mode == "error"
      ensures this.version == version && this.store == store && this.file == file
      ensures this.mode == mode && this.error == error && !written
      ensures closed <==> mode == "error"
      ensures Valid()
    {
      this.version := version;
      this.store := store;
      this.file := file;
      this.mode := mode;
      this.written := false;
      this.closed := mode == "error";
      this.error := error;
    }

    /** Whether `write` refuses: a closed handle, and in cmsh a read-mode handle. */
    predicate Refuses()
      reads this
    {
      closed || (version == Cmsh && mode == "read")
    }

    /** `write(data)`: 1 without change when refused, else 0 after writing (truncating first in overwrite mode). */
    method Write(data: string) returns (r: int)
      requires Valid()
      modifies store
      ensures r == (if Refuses() then 1 else 0)
      ensures Refuses() ==> store.root == old(store.root)
      ensures !Refuses() ==> store.root == Written(old(store.root), file.value, data, !written && mode == "overwrite")
    {
      if closed || (version == Cmsh && mode == "read") {
        return 1;
      }
      var n := At(store.root, file.value);
      if n.Some? {
        store.root := Replace(store.root, file.value, WrittenNode(n.value, data, !written && mode == "overwrite"));
      }
      return 0;
    }

    /** `close()`: 1 without change when already closed, else one `'\n'` is appended and the handle closes. */
    method Close() returns (r: Option<int>)
      requires Valid()
      modifies this, store
      ensures Valid() && closed
      ensures old(closed) ==> r == Some(1) && store.root == old(store.root)
      ensures !old(closed) ==> r == None && store.root == Written(old(store.root), file.value, "\n", false)
    {
      if closed {
        return Some(1);
      }
      var n := At(store.root, file.value);
      if n.Some? {
        store.root := Replace(store.root, file.value, WrittenNode(n.value, "\n", false));
      }
      closed := true;
      return None;
    }

    /** `read()` (cmsh only): the error for an error handle, otherwise the content, open or closed. */
    function Read(): (r: ReadResult)
      requires Valid()
      reads this, store
      ensures mode == "error" <==> r.Rejected?
      ensures r.Rejected? ==> r.message == error
      ensures mode != "error" && TextAt(store.root, file.value).Some? ==> r == Resolved(Some(Text(TextAt(store.root, file.value).value)))
    {
      if mode == "error" then Rejected(error)
      else
        match At(store.root, file.value)
        case Some(File(_, _, Remote(url))) => Fetched(url)
        case Some(File(_, _, c)) => Resolved(Some(c))
        case _ => Resolved(None)
    }
  }
}
