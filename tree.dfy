/**
 * The file tree every generation of the shell keeps in memory: directory
 * nodes `{type: 'directory', writeable, children}` and file nodes
 * `{type: 'file', writeable, executable, content}`.
 *
 * A reference to a live node (what `get(path, true)` returns and what a
 * file handle keeps in `this.file`) is modelled as the node's location, the
 * child names from the root down to it, inside a `Store`, the object that
 * holds the tree (`this.files` of a file system). Nodes are never removed
 * or moved, so a location keeps naming the same node while the tree grows.
 */
module Tree {
  import opened Wrappers
  import opened Dict

  /**
   * What a file holds: text, a command (a JavaScript function, named here),
   * or remote content fetched on demand.
   */
  datatype Content = Text(text: string) | Program(name: string) | Remote(url: string)

  datatype Node =
    | Dir(writeable: bool, children: Dict<Node>)
    | File(writeable: bool, executable: bool, content: Content)

  /** The child names from the root to a node. */
  type Loc = seq<string>

  /** The object a file system keeps its tree in. */
  class Store {
    var root: Node

    constructor(root: Node)
      ensures this.root == root
    {
      this.root := root;
    }
  }

  /** The node at a location, if there is one. */
  function At(n: Node, loc: Loc): Option<Node>
    decreases |loc|
  {
    if loc == [] then Some(n)
    else if n.Dir? && loc[0] in n.children.vals then At(n.children.vals[loc[0]], loc[1..])
    else None
  }

  /** The node at a location replaced by m; the tree is unchanged when there is no node there. */
  function Replace(n: Node, loc: Loc, m: Node): Node
    decreases |loc|
  {
    if loc == [] then m
    else if n.Dir? && loc[0] in n.children.vals then
      n.(children := n.children.Put(loc[0], Replace(n.children.vals[loc[0]], loc[1..], m)))
    else n
  }

  /** One more step down: the child `p` of the directory at `loc`. */
  lemma {:induction false} AtSnoc(n: Node, loc: Loc, p: string)
    ensures At(n, loc + [p]) == if At(n, loc).Some? && At(n, loc).value.Dir? && p in At(n, loc).value.children.vals
                                then Some(At(n, loc).value.children.vals[p]) else None
    decreases |loc|
  {
    if loc == [] {
      assert [] + [p] == [p];
      assert [p][1..] == [];
    } else {
      assert (loc + [p])[0] == loc[0] && (loc + [p])[1..] == loc[1..] + [p];
      if n.Dir? && loc[0] in n.children.vals {
        AtSnoc(n.children.vals[loc[0]], loc[1..], p);
      }
    }
  }

  /** After a replacement the new node is found where the old one was. */
  lemma {:induction false} AtReplace(n: Node, loc: Loc, m: Node)
    requires At(n, loc).Some?
    ensures At(Replace(n, loc, m), loc) == Some(m)
    decreases |loc|
  {
    if loc != [] {
      AtReplace(n.children.vals[loc[0]], loc[1..], m);
    }
  }

  /** Locations that branch off before reaching `loc` see the same nodes after a replacement at `loc`. */
  lemma {:induction false} AtReplaceElsewhere(n: Node, loc: Loc, m: Node, other: Loc)
    requires !(loc <= other) && !(other <= loc)
    ensures At(Replace(n, loc, m), other) == At(n, other)
    decreases |loc|
  {
    assert loc != [] && other != [];
    if n.Dir? && loc[0] in n.children.vals {
      var child := n.children.vals[loc[0]];
      if other[0] == loc[0] {
        AtReplaceElsewhere(child, loc[1..], m, other[1..]);
      }
    }
  }

  /** Replacing a node by one of the same kind keeps every location of the tree. */
  lemma {:induction false} ReplaceKeepsLocations(n: Node, loc: Loc, m: Node, other: Loc)
    requires At(n, loc).Some? && At(n, loc).value.File? && m.File?
    requires At(n, other).Some?
    ensures At(Replace(n, loc, m), other).Some?
    decreases |loc|
  {
    if loc != [] && other != [] && other[0] == loc[0] {
      ReplaceKeepsLocations(n.children.vals[loc[0]], loc[1..], m, other[1..]);
    }
  }

  /** Nothing lies below a file. */
  lemma {:induction false} BelowFile(n: Node, a: Loc, b: Loc)
    requires At(n, a).Some? && At(n, a).value.File? && a < b
    ensures At(n, b) == None
    decreases |a|
  {
    if a != [] {
      assert b[0] == a[0];
      BelowFile(n.children.vals[a[0]], a[1..], b[1..]);
    }
  }

  /** The tree with an extra child `name` in the directory at `loc`. */
  function Insert(n: Node, loc: Loc, name: string, child: Node): Node
    requires At(n, loc).Some? && At(n, loc).value.Dir?
  {
    var d := At(n, loc).value;
    Replace(n, loc, d.(children := d.children.Put(name, child)))
  }

  /** The inserted node is found under its name, and its parent is still a directory. */
  lemma InsertFinds(n: Node, loc: Loc, name: string, child: Node)
    requires At(n, loc).Some? && At(n, loc).value.Dir?
    ensures At(Insert(n, loc, name, child), loc + [name]) == Some(child)
    ensures At(Insert(n, loc, name, child), loc).Some? && At(Insert(n, loc, name, child), loc).value.Dir?
  {
    var d := At(n, loc).value;
    AtReplace(n, loc, d.(children := d.children.Put(name, child)));
    AtSnoc(Insert(n, loc, name, child), loc, name);
  }

  /**
   * An insertion under a name that was free keeps every location of the tree,
   * and the node there unless it is the directory or one of its ancestors.
   */
  lemma {:induction false} InsertKeeps(n: Node, loc: Loc, name: string, child: Node, other: Loc)
    requires At(n, loc).Some? && At(n, loc).value.Dir? && name !in At(n, loc).value.children.vals
    requires At(n, other).Some?
    ensures At(Insert(n, loc, name, child), other).Some?
    ensures !(other <= loc) ==> At(Insert(n, loc, name, child), other) == At(n, other)
    decreases |loc|
  {
    var d := At(n, loc).value;
    var m := d.(children := d.children.Put(name, child));
    if loc == [] {
      if other != [] {
        assert other[0] != name;
        assert At(Insert(n, loc, name, child), other) == At(n.children.vals[other[0]], other[1..]);
      }
    } else if other != [] && other[0] == loc[0] {
      var c := n.children.vals[loc[0]];
      InsertKeeps(c, loc[1..], name, child, other[1..]);
      var inner := Insert(c, loc[1..], name, child);
      assert Insert(n, loc, name, child) == n.(children := n.children.Put(loc[0], inner));
      assert At(Insert(n, loc, name, child), other) == At(inner, other[1..]);
      assert At(n, other) == At(c, other[1..]);
      assert other <= loc <==> other[1..] <= loc[1..] by {
        assert loc == [loc[0]] + loc[1..] && other == [other[0]] + other[1..];
      }
    }
  }
  /** An insertion adds no location outside the subtree of the inserted child. */
  lemma {:induction false} InsertOnlyAdds(n: Node, loc: Loc, name: string, child: Node, other: Loc)
    requires At(n, loc).Some? && At(n, loc).value.Dir?
    requires At(Insert(n, loc, name, child), other).Some? && At(n, other).None?
    ensures loc + [name] <= other
    decreases |loc|
  {
    var d := At(n, loc).value;
    assert other != [];
    if loc == [] {
      assert Insert(n, loc, name, child) == n.(children := n.children.Put(name, child));
    } else {
      var c := n.children.vals[loc[0]];
      var inner := Insert(c, loc[1..], name, child);
      assert Insert(n, loc, name, child) == n.(children := n.children.Put(loc[0], inner));
      if other[0] == loc[0] {
        InsertOnlyAdds(c, loc[1..], name, child, other[1..]);
        assert loc + [name] == [loc[0]] + (loc[1..] + [name]) && other == [other[0]] + other[1..];
      }
    }
  }
}
