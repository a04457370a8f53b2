/**
 * The cmsh shell (cmsh/classes/Shell.js): its variables, its mounted file
 * systems, the lookup of a command along PATH, output redirection, and
 * `execute`, which runs one command line.
 *
 * What a command does when it runs is given: the lines it writes
 * (`output`) and the value it returns (`code`). The number RANDOM yields is
 * `draw`.
 */
module Cmsh {
  import opened Wrappers
  import opened Commands
  import opened Dict
  import opened Text
  import opened Tree
  import opened BaseFs
  import opened Backends
  import opened Mounts
  import opened Env
  import opened Parsed
  import opened Executables
  import Line
  import Scheduler
  import Redirect
  import Pairs
  import Handle

  const DefaultPath := "/bin/:/usr/bin/"

  /** The variables `start` gives the shell: `?`, PWD and PATH, each overridden by `env`. */
  function StartValues(env: Dict<string>): Dict<string> {
    var home := if env.Has("HOME") && env.vals["HOME"] != "" then env.vals["HOME"] else "/";
    Assign(Empty<string>().Put("?", "0").Put("PWD", home).Put("PATH", DefaultPath), env, env.keys)
  }

  /** The start variables always hold PWD and PATH. */
  lemma StartHas(env: Dict<string>)
    requires env.Valid()
    ensures StartValues(env).Valid() && StartValues(env).Has("PWD") && StartValues(env).Has("PATH")
  {
    StartVariables(env, "PWD");
  }

  /**
   * A variable of `env` keeps its value; otherwise `?` is 0, PWD is HOME
   * (`/` when HOME is unset or empty) and PATH is `/bin/:/usr/bin/`.
   */
  lemma StartVariables(env: Dict<string>, k: string)
    requires env.Valid()
    ensures StartValues(env).Valid() && StartValues(env).Has("PWD") && StartValues(env).Has("PATH")
    ensures StartValues(env).Get(k) ==
      if env.Has(k) then env.Get(k)
      else if k == "?" then Some("0")
      else if k == "PWD" then Some(if env.Get("HOME").GetOr("") == "" then "/" else env.vals["HOME"])
      else if k == "PATH" then Some(DefaultPath)
      else None
  {
    var home := if env.Has("HOME") && env.vals["HOME"] != "" then env.vals["HOME"] else "/";
    var d := Empty<string>().Put("?", "0").Put("PWD", home).Put("PATH", DefaultPath);
    AssignGet(d, env, env.keys, k);
    AssignGet(d, env, env.keys, "PWD");
    AssignGet(d, env, env.keys, "PATH");
  }

  /** Every path has a mount point that is a prefix of it. */
  predicate RoutableAll(keys: seq<string>, paths: seq<string>) {
    forall i :: 0 <= i < |paths| ==> Routable(keys, paths[i])
  }

  class Shell {
    /** `inProcess`, `sigIntReceived`, and whether `exit` was called. */
    const flags: Scheduler.Flags
    const environment: Environment
    const fileSystem: FileSystem
    /** The lines written to the process, as output and as errors. */
    var outLines: seq<string>
    var errLines: seq<string>

    /** The environment is the cmsh one, and PWD and PATH are set (`start` sets both, and nothing unsets a variable). */
    ghost predicate Valid()
      reads environment
    {
      environment.Valid() && environment.randomKey && fileSystem.Valid()
      && environment.values.Has("PWD") && environment.values.Has("PATH")
    }

    /**
     * `Shell.start(process, env, fstab)` up to its first command: the
     * variables are StartValues(env), the file systems are mounted from the
     * fstab (`local` is the page's `localStorage`, `load` the tree a device
     * yields), and no command runs.
     */
    constructor(env: Dict<string>, fstab: seq<FstabEntry>, local: LocalStorage, load: string -> Node)
      requires env.Valid()
      ensures Valid()
      ensures environment.values == StartValues(env) && fileSystem.fstab == fstab && fileSystem.local == local
      ensures !flags.inProcess && !flags.sigIntReceived && !flags.exited
      ensures outLines == [] && errLines == []
    {
      StartHas(env);
      flags := new Scheduler.Flags();
      environment := new Environment(StartValues(env), true);
      fileSystem := new FileSystem(fstab, local, load);
      outLines := [];
      errLines := [];
    }

    /** The variable PWD. */
    function Pwd(): string
      requires Valid()
      reads environment
    {
      environment.values.vals["PWD"]
    }

    /** A path as `getPath`, `createFile` and `openFile` look it up. */
    function FullPath(path: string): string
      requires Valid()
      reads environment
    {
      FromCwd(Pwd(), path)
    }

    /** The mounted trees. */
    ghost function Trees(): map<Store, Node>
      reads fileSystem.Stores()
    {
      map s | s in fileSystem.Stores() :: s.root
    }

    /** `getPath(path)`: the lookup of the path from PWD; Threw when no mount point is a prefix of it. */
    method GetPath(path: string) returns (r: Attempt<GetResult>)
      requires Valid()
      ensures var p := FullPath(path);
        r == if Routable(fileSystem.mounts.keys, p) then Done(fileSystem.Found(p, false)) else Threw
    {
      var pwd := environment.Get("PWD");
      var p := FromCwd(pwd, path);
      if !Routable(fileSystem.mounts.keys, p) {
        return Threw;
      }
      var f := fileSystem.Get(p, false);
      return Done(f);
    }

    /**
     * `createFile(path)`: `create` on the mounted file system of the path
     * from PWD. It throws when no mount point is a prefix, or when a
     * writable file system finds a writeable file where the directory
     * should be; only the routed tree changes.
     */
    method CreateFile(path: string) returns (r: Attempt<Option<GetResult>>)
      requires Valid()
      modifies fileSystem.Stores()
      ensures var p := FullPath(path);
        !Routable(fileSystem.mounts.keys, p) ==> r == Threw
      ensures var p := FullPath(path);
        Routable(fileSystem.mounts.keys, p) ==>
          var b := fileSystem.Backing(p);
          var inner := Prepare(fileSystem.mounts.keys, p).innerPath;
          if (b.kind == Tmpfs || b.kind == Wsfs) && Throws(old(b.store.root), inner) then r == Threw
          else r.Done? && CreateOutcome(b.kind, old(b.store.root), b.store.root, inner, false, r.value)
      ensures forall s :: s in fileSystem.Stores() && s.root != old(s.root) ==>
        Routable(fileSystem.mounts.keys, FullPath(path)) && s == fileSystem.Backing(FullPath(path)).store
    {
      var pwd := environment.Get("PWD");
      var p := FromCwd(pwd, path);
      if !Routable(fileSystem.mounts.keys, p) {
        return Threw;
      }
      fileSystem.Mounted(p);
      var b := fileSystem.Backing(p);
      var inner := Prepare(fileSystem.mounts.keys, p).innerPath;
      if (b.kind == Tmpfs || b.kind == Wsfs) && Throws(b.store.root, inner) {
        return Threw;
      }
      var c := fileSystem.Create(p, false);
      return Done(c);
    }

    /** `openFile` of the full path `p` does not throw on the trees `trees`. */
    ghost predicate Openable(p: string, trees: map<Store, Node>)
      requires fileSystem.Valid()
    {
      Routable(fileSystem.mounts.keys, p)
      && var b := fileSystem.Backing(p);
      b.store in trees && Opens(b.kind, trees[b.store], Prepare(fileSystem.mounts.keys, p).innerPath)
    }

    /**
     * `h` is the handle `openFile` gave for the full path `p`, in the trees
     * `trees`: on the routed tree, an error handle saying `permission
     * denied`, or an appending handle on the node the inner path names;
     * wrapped exactly when the routed file system is a web-storage one.
     */
    ghost predicate OpenedFor(h: Opened, p: string, trees: map<Store, Node>) {
      fileSystem.Valid() && Routable(fileSystem.mounts.keys, p)
      && var b := fileSystem.Backing(p);
      var inner := Prepare(fileSystem.mounts.keys, p).innerPath;
      b.store in trees && Redirect.OpenedAt(h.Handle(), b.store, inner, Named(Split(inner, '/')), trees[b.store])
      && (h.Synced? <==> b.kind == Wsfs)
      && (h.Synced? ==> h.wh.fs == b)
    }

    /**
     * The error line a handle opened for `p` gives for each written line:
     * `cmd: permission denied: <last segment>` when `open` gave a plain
     * error handle, and none for a handle on a node or for any web-storage
     * wrapper, error handle or not.
     */
    lemma ErrorLineFor(h: Opened, p: string, trees: map<Store, Node>, cmd: string)
      requires OpenedFor(h, p, trees)
      ensures var b := fileSystem.Backing(p);
        var inner := Prepare(fileSystem.mounts.keys, p).innerPath;
        Redirect.ErrorLines(cmd, [h])
          == if b.kind != Wsfs && h.Handle().mode == "error" then [cmd + ": " + "permission denied: " + Leaf(inner)] else []
    {
      assert [h][..0] == [];
      assert Redirect.ErrorLines(cmd, [h]) == if Redirect.ShowsError(h) then [cmd + ": " + h.fh.error] else [];
      var inner := Prepare(fileSystem.mounts.keys, p).innerPath;
      if Redirect.ShowsError(h) {
        assert h.fh.error == "permission denied: " + Leaf(inner);
        assert cmd + ": " + h.fh.error == cmd + ": " + "permission denied: " + Leaf(inner);
      }
    }

    /** The full paths of the redirection targets, seen from PWD. */
    function Targets(redirections: seq<Redirection>): (r: seq<string>)
      requires Valid()
      reads environment
      ensures |r| == |redirections|
      decreases |redirections|
    {
      if redirections == [] then []
      else Targets(redirections[..|redirections| - 1]) + [FullPath(redirections[|redirections| - 1].target)]
    }

    /**
     * `openFile(path)`: `open` in the default mode `'append'` on the
     * mounted file system of the path from PWD; Threw when it throws. Only
     * the routed tree changes, and it only grows.
     */
    method OpenFile(path: string, ghost keep: set<Handle.FileHandle>) returns (r: Attempt<Opened>)
      requires Valid()
      modifies fileSystem.Stores()
      ensures r.Threw? <==> !Openable(FullPath(path), old(Trees()))
      ensures r.Threw? ==> Trees() == old(Trees())
      ensures r.Done? ==> OpenedNew(r.value, FullPath(path), old(Trees()))
      ensures r.Done? ==> fresh(r.value.Handle()) && (r.value.Synced? ==> fresh(r.value.wh))
      ensures forall s :: s in fileSystem.Stores() ==> Grows(old(s.root), s.root)
      ensures forall s :: s in fileSystem.Stores() && s.root != old(s.root) ==> r.Done? && s == r.value.Handle().store
      ensures unchanged(keep)
    {
      var p := FullPath(path);
      if Routable(fileSystem.mounts.keys, p) && Opens(fileSystem.Backing(p).kind, fileSystem.Backing(p).store.root, Prepare(fileSystem.mounts.keys, p).innerPath) {
        fileSystem.Mounted(p);
        ghost var trees := Trees();
        var h := OpenAt(p, keep);
        assert OpenedNew(h, p, trees);
        r := Done(h);
      } else {
        r := Threw;
      }
    }

    /**
     * `h` is a new handle `open` gave in mode `'append'` for the full path
     * `p`, on the trees that were `before`: it is closed exactly when it is
     * an error handle, the routed tree is what opening made of it, and the
     * handle describes the trees as they are now.
     */
    ghost predicate OpenedNew(h: Opened, p: string, before: map<Store, Node>)
      reads fileSystem.Stores(), h.Handle()
      reads if h.Synced? then {h.wh} else {}
    {
      fileSystem.Valid() && Routable(fileSystem.mounts.keys, p)
      && var b := fileSystem.Backing(p);
      var inner := Prepare(fileSystem.mounts.keys, p).innerPath;
      && b.store in before && h.Handle().Valid()
      && (h.Handle().closed <==> h.Handle().mode == "error")
      && OpenOutcome(before[b.store], b.store.root, inner, "append", h.Handle())
      && OpenedFor(h, p, Trees())
      && (h.Synced? ==> h.wh.Valid())
    }

    /** `fileSystem.open(p)`, in the default mode, for a full path `p` that opens. */
    method OpenAt(p: string, ghost keep: set<Handle.FileHandle>) returns (h: Opened)
      requires Valid() && Routable(fileSystem.mounts.keys, p)
      requires Opens(fileSystem.Backing(p).kind, fileSystem.Backing(p).store.root, Prepare(fileSystem.mounts.keys, p).innerPath)
      modifies fileSystem.Backing(p).store
      ensures fresh(h.Handle()) && (h.Synced? ==> fresh(h.wh))
      ensures OpenedNew(h, p, old(Trees()))
      ensures forall s :: s in fileSystem.Stores() ==> Grows(old(s.root), s.root)
      ensures forall s :: s in fileSystem.Stores() && s.root != old(s.root) ==> s == h.Handle().store
      ensures unchanged(keep)
    {
      fileSystem.Mounted(p);
      ghost var store := fileSystem.Backing(p).store;
      ghost var before := store.root;
      h := fileSystem.Open(p, "append");
      OpenKeeps(before, store.root, Prepare(fileSystem.mounts.keys, p).innerPath, "append", h.Handle());
      forall s | s in fileSystem.Stores() ensures Grows(old(s.root), s.root) {
        if s != store {
          GrowsRefl(s.root);
        }
      }
    }

    /** The PATH entries, `PATH.split(':')`. */
    function PathEntries(): seq<string>
      requires Valid()
      reads environment
    {
      Split(environment.values.vals["PATH"], ':')
    }

    /** Every PATH entry has a mount point; otherwise `getExecutablesInPath` throws. */
    predicate PathRoutable()
      requires Valid()
      reads environment
    {
      RoutableAll(fileSystem.mounts.keys, PathEntries())
    }

    /** `Promise.all(paths.map(path => this.fileSystem.get(path)))`: what `get` answers for each of the paths. */
    function Lookups(paths: seq<string>): seq<GetResult>
      requires Valid() && RoutableAll(fileSystem.mounts.keys, paths)
      reads environment, fileSystem.Stores()
      decreases |paths|
    {
      if paths == [] then []
      else
        var last := paths[|paths| - 1];
        fileSystem.Mounted(last);
        Lookups(paths[..|paths| - 1]) + [fileSystem.Found(last, false)]
    }

    /**
     * `getExecutablesInPath()`: every PATH entry looked up, the executable
     * children of the directories merged, a later entry winning, and then
     * `exit` and `clear`; Threw when an entry has no mount point.
     */
    function ExecutablesInPath(): (r: Attempt<Dict<Node>>)
      requires Valid()
      reads environment, fileSystem.Stores()
      ensures r.Done? <==> PathRoutable()
      ensures r.Done? ==> (r.value.Valid()
        && r.value.Get("exit") == Some(Builtin("exit")) && r.value.Get("clear") == Some(Builtin("clear")))
    {
      var paths := PathEntries();
      if !RoutableAll(fileSystem.mounts.keys, paths) then Threw
      else
        LaterPathWins(Lookups(paths), "");
        Done(WithBuiltins(PathTable(Lookups(paths))))
    }

    /**
     * `getExecutable(name)`: the table's entry; else the file `name` names
     * when it is executable; else None (`false`). Threw when a lookup throws.
     */
    function Executable(name: string): Attempt<Option<Node>>
      requires Valid()
      reads environment, fileSystem.Stores()
    {
      var table := ExecutablesInPath();
      if table.Threw? then Threw
      else if table.value.Has(name) then Done(Some(table.value.vals[name]))
      else if !Routable(fileSystem.mounts.keys, name) then Threw
      else
        fileSystem.Mounted(name);
        var f := fileSystem.Found(name, false);
        if f.Snapshot? && IsExecutable(f.node) then Done(Some(f.node)) else Done(None)
    }

    /** `exit` and `clear` are always found, as the built-ins, whatever PATH holds. */
    lemma BuiltinsResolve()
      requires Valid() && PathRoutable()
      ensures Executable("exit") == Done(Some(Builtin("exit")))
      ensures Executable("clear") == Done(Some(Builtin("clear")))
    {
    }

    /**
     * Any other name resolves to the child of the last PATH directory that
     * has it as an executable; when none has, to the file the name itself
     * names, if that is executable.
     */
    lemma PathLookup(name: string)
      requires Valid() && PathRoutable() && name != "exit" && name != "clear"
      ensures var found := Lookups(PathEntries());
        if exists i :: 0 <= i < |found| && Offers(found[i], name) then
          Executable(name) == Done(Some(found[LastOffer(found, name)].node.children.vals[name]))
        else if !Routable(fileSystem.mounts.keys, name) then Executable(name) == Threw
        else Executable(name) == Done(
          var f := fileSystem.Found(name, false);
          if f.Snapshot? && IsExecutable(f.node) then Some(f.node) else None)
    {
      var found := Lookups(PathEntries());
      TableLookup(name);
      LaterPathWins(found, name);
    }

    /** Outside the built-ins, the table has exactly what the PATH directories offer. */
    lemma TableLookup(name: string)
      requires Valid() && PathRoutable() && name != "exit" && name != "clear"
      ensures ExecutablesInPath().value.Has(name) <==> PathTable(Lookups(PathEntries())).Get(name).Some?
      ensures ExecutablesInPath().value.Has(name) ==>
        ExecutablesInPath().value.vals[name] == PathTable(Lookups(PathEntries())).Get(name).value
    {
      var table := ExecutablesInPath().value;
      assert table == WithBuiltins(PathTable(Lookups(PathEntries())));
      assert table.Get(name) == PathTable(Lookups(PathEntries())).Get(name);
    }

    /** Whatever `getExecutable` finds is executable. */
    lemma ResolvedIsExecutable(name: string)
      requires Valid()
      ensures Executable(name).Done? && Executable(name).value.Some? ==> IsExecutable(Executable(name).value.value)
    {
      if PathRoutable() {
        if name == "exit" || name == "clear" {
          BuiltinsResolve();
        } else {
          PathLookup(name);
        }
      }
    }

    /**
     * `buildIo(cmd, redirections)` up to its writer: every redirection is
     * opened for output, in order (no mode is ever `'read'`, see
     * Line.RedirectionModes); Threw when an open throws, on the trees as
     * they were then.
     */
    method BuildIo(redirections: seq<Redirection>, ghost ps: seq<string>) returns (r: Attempt<seq<Opened>>)
      requires Valid() && ps == Targets(redirections)
      modifies fileSystem.Stores()
      ensures unchanged(this, environment)
      ensures r.Threw? ==> !AllOpenable(ps, Trees())
      ensures r.Done? ==> OpenedAll(r.value, ps) && fresh(Redirect.Handles(r.value))
      decreases |redirections|
    {
      if redirections == [] {
        return Done([]);
      }
      var n := |redirections| - 1;
      TargetsFront(redirections);
      var front := BuildIo(redirections[..n], ps[..n]);
      r := OpenAfter(front, ps, n, redirections[n].target);
    }

    /** The last redirection opened once the ones before it were: nothing more when one of them threw. */
    method OpenAfter(front: Attempt<seq<Opened>>, ghost ps: seq<string>, n: nat, target: string) returns (r: Attempt<seq<Opened>>)
      requires Valid() && n + 1 == |ps| && ps[n] == FullPath(target)
      requires front.Threw? ==> !AllOpenable(ps[..n], Trees())
      requires front.Done? ==> OpenedAll(front.value, ps[..n]) && |front.value| == n
      modifies fileSystem.Stores()
      ensures unchanged(this, environment)
      ensures r.Threw? ==> !AllOpenable(ps, Trees())
      ensures r.Done? ==> front.Done? && OpenedAll(r.value, ps)
      ensures r.Done? ==> forall o :: o in Redirect.Handles(r.value) ==> o in Redirect.Handles(front.value) || fresh(o)
    {
      if front.Threw? {
        AllOpenableLast(ps, Trees());
        return Threw;
      }
      r := OpenNext(front.value, ps, target);
    }

    /** The targets of all but the last redirection are the front of the targets. */
    lemma TargetsFront(redirections: seq<Redirection>)
      requires Valid() && redirections != []
      ensures Targets(redirections[..|redirections| - 1]) == Targets(redirections)[..|redirections| - 1]
    {
      var front := Targets(redirections[..|redirections| - 1]);
      assert (front + [FullPath(redirections[|redirections| - 1].target)])[..|front|] == front;
    }

    /**
     * The handles `hs` are the ones `openFile` gave for the full paths `ps`,
     * in order, in the trees as they are now; each is distinct, ready to
     * take writes, and writes into a mounted tree.
     */
    ghost predicate OpenedAll(hs: seq<Opened>, ps: seq<string>)
      reads Redirect.Handles(hs), fileSystem.Stores()
    {
      Redirect.Ready(hs) && Redirect.Distinct(hs) && Pairs.All(OpenedIn(Trees()), hs, ps)
    }

    /** `openFile` does not throw for any of the full paths `ps` on the trees `trees`. */
    ghost predicate AllOpenable(ps: seq<string>, trees: map<Store, Node>)
      decreases |ps|
    {
      ps == [] || (AllOpenable(ps[..|ps| - 1], trees) && fileSystem.Valid() && Openable(ps[|ps| - 1], trees))
    }

    lemma AllOpenableLast(ps: seq<string>, trees: map<Store, Node>)
      requires ps != []
      ensures AllOpenable(ps, trees) <==> AllOpenable(ps[..|ps| - 1], trees) && fileSystem.Valid() && Openable(ps[|ps| - 1], trees)
    {
    }

    /**
     * One more redirection opened, `openFile(target)` for the full path
     * `ps[|hs|]`: the handles so far still describe the grown trees, and the
     * new one joins them.
     */
    method OpenNext(hs: seq<Opened>, ghost ps: seq<string>, target: string) returns (r: Attempt<seq<Opened>>)
      requires Valid() && |hs| + 1 == |ps| && ps[|hs|] == FullPath(target)
      requires OpenedAll(hs, ps[..|hs|])
      modifies fileSystem.Stores()
      ensures unchanged(this, environment)
      ensures r.Threw? ==> !AllOpenable(ps, Trees())
      ensures r.Done? ==> |r.value| == |ps| && OpenedAll(r.value, ps)
      ensures r.Done? ==> Redirect.Handles(r.value) == Redirect.Handles(hs) + {r.value[|hs|].Handle()}
      ensures r.Done? ==> fresh(r.value[|hs|].Handle())
    {
      ghost var trees := Trees();
      var h := OpenFile(target, Redirect.Handles(hs));
      if h.Threw? {
        AllOpenableLast(ps, Trees());
        return Threw;
      }
      Redirect.Extended(hs, h.value);
      forall h', p' | OpenedFor(h', p', trees)
        ensures OpenedFor(h', p', Trees())
      {
        OpenedStays(h', p', trees, Trees());
      }
      Pairs.Weaken(OpenedIn(trees), OpenedIn(Trees()), hs, ps[..|hs|]);
      Pairs.Extend(OpenedIn(Trees()), hs, ps, h.value);
      var hs' := hs + [h.value];
      assert hs'[..|hs|] == hs;
      return Done(hs');
    }

    /** OpenedFor as a relation, for the trees `trees`. */
    ghost function OpenedIn(trees: map<Store, Node>): (Opened, string) -> bool {
      (h, p) => OpenedFor(h, p, trees)
    }

    /** A handle opened earlier still describes the trees after a later open kept every node. */
    lemma OpenedStays(h: Opened, p: string, before: map<Store, Node>, after: map<Store, Node>)
      requires forall s :: s in before ==> s in after && Keeps(before[s], after[s])
      ensures OpenedFor(h, p, before) ==> OpenedFor(h, p, after)
    {
    }

    /** `Object.keys(line.variables).forEach(key => this.setenv(key, ...))` */
    method SetVariables(variables: Dict<string>)
      requires Valid()
      modifies environment
      ensures Valid()
      ensures environment.values == Assign(old(environment.values), variables, variables.keys)
    {
      var i := 0;
      while i < |variables.keys|
        invariant 0 <= i <= |variables.keys|
        invariant Valid()
        invariant environment.values == Assign(old(environment.values), variables, variables.keys[..i])
      {
        var k := variables.keys[i];
        assert variables.keys[..i + 1][..i] == variables.keys[..i];
        if k in variables.vals {
          environment.Set(k, variables.vals[k]);
        }
        i := i + 1;
      }
      assert variables.keys[..i] == variables.keys;
    }

    /**
     * `execute(value)`: the line is built; a line without arguments stores
     * its assignments and settles with `undefined`; otherwise the first
     * argument is looked up and run (see Run), and the assignments only fed
     * the substitution. A command writes the lines `output` and returns
     * `code`; `hs` are the handles of the redirections and `built` the
     * trees just after they were opened.
     */
    method Execute(value: string, draw: nat, output: seq<string>, code: Option<int>)
      returns (o: Outcome, ghost hs: seq<Opened>, ghost built: map<Store, Node>)
      requires Valid()
      modifies this, environment, fileSystem.Stores(), fileSystem.local
      ensures Valid()
      ensures var line := Line.BuildSpec(value, old(environment.values), Some(draw));
        line.args == [] ==>
          && o == Finished(None)
          && environment.values == Assign(old(environment.values), line.variables, line.variables.keys)
          && outLines == old(outLines) && errLines == old(errLines) && Trees() == old(Trees())
          && fileSystem.local.State() == old(fileSystem.local.State())
      ensures var line := Line.BuildSpec(value, old(environment.values), Some(draw));
        line.args != [] ==>
          && environment.values == old(environment.values)
          && Ran(old(Executable(line.args[0])), line.args[0], line.redirections, output, code, o, hs, built,
                 old(outLines), old(errLines), old(Trees()), old(fileSystem.local.State()))
    {
      var line := Line.Build(value, environment, draw);
      o, hs, built := Dispatch(line, output, code);
    }

    /** `execute` once the line is built. */
    method Dispatch(line: ParsedLine, output: seq<string>, code: Option<int>)
      returns (o: Outcome, ghost hs: seq<Opened>, ghost built: map<Store, Node>)
      requires Valid()
      modifies this, environment, fileSystem.Stores(), fileSystem.local
      ensures Valid()
      ensures line.args == [] ==>
        && o == Finished(None)
        && environment.values == Assign(old(environment.values), line.variables, line.variables.keys)
        && outLines == old(outLines) && errLines == old(errLines) && Trees() == old(Trees())
        && fileSystem.local.State() == old(fileSystem.local.State())
      ensures line.args != [] ==>
        && environment.values == old(environment.values)
        && Ran(old(Executable(line.args[0])), line.args[0], line.redirections, output, code, o, hs, built,
               old(outLines), old(errLines), old(Trees()), old(fileSystem.local.State()))
    {
      if line.args == [] {
        SetVariables(line.variables);
        return Finished(None), [], Trees();
      }
      var exe := Executable(line.args[0]);
      o, hs, built := Run(line.args[0], exe, line.redirections, output, code);
    }

    /**
     * What running the command `input` did, for what `getExecutable` gave
     * (`exe`), with the lines written and the trees as they were before:
     * Aborted when the lookup threw; `Command not found` and 127 with
     * nothing opened when nothing was found; otherwise the command's output
     * and result as Redirected states, or straight to the output when there
     * are no redirections, and Aborted when the node found is not a
     * function.
     */
    ghost predicate Ran(exe: Attempt<Option<Node>>, input: string, redirections: seq<Redirection>,
                        output: seq<string>, code: Option<int>, o: Outcome, hs: seq<Opened>,
                        built: map<Store, Node>, out0: seq<string>, err0: seq<string>, trees0: map<Store, Node>,
                        cell0: StorageState)
      requires Valid()
      reads this, environment, fileSystem.Stores(), fileSystem.local, Redirect.Handles(hs), Redirect.Stores(hs)
    {
      if exe.Threw? then o == Aborted && outLines == out0 && errLines == err0 && Trees() == trees0 && fileSystem.local.State() == cell0
      else if exe.value.None? then
        o == Finished(Some(127)) && outLines == out0 + ["Command not found: " + input]
        && errLines == err0 && Trees() == trees0 && fileSystem.local.State() == cell0
      else if redirections == [] then
        o == (if IsCommand(exe.value.value) then Finished(code) else Aborted)
        && outLines == (if IsCommand(exe.value.value) then out0 + output else out0)
        && errLines == err0 && Trees() == trees0 && fileSystem.local.State() == cell0
      else outLines == out0 && RanRedirected(redirections, exe.value.value, input, output, code, o, hs, built, err0, cell0)
    }

    /**
     * The redirected run: when it finishes, the command was a function,
     * every redirection target had its handle opened on the trees
     * `built`, each line went through every handle (an error line for each
     * plain error handle, none for a web-storage wrapper, see ErrorLineFor),
     * and every handle was closed, the page's storage left as ReleasedState
     * gives for the storage `cell0` it held before; it aborts only when the
     * node found is not a function or an open threw, and then nothing was saved.
     */
    ghost predicate RanRedirected(redirections: seq<Redirection>, node: Node, input: string, output: seq<string>,
                              code: Option<int>, o: Outcome, hs: seq<Opened>, built: map<Store, Node>, err0: seq<string>,
                              cell0: StorageState)
      requires Valid()
      reads this, environment, fileSystem.Stores(), fileSystem.local, Redirect.Handles(hs), Redirect.Stores(hs)
    {
      && (o.Aborted? ==>
        && (!IsCommand(node) || !AllOpenable(Targets(redirections), Trees()))
        && fileSystem.local.State() == cell0)
      && (o.Finished? ==>
        && IsCommand(node) && o == Finished(code)
        && Pairs.All(OpenedIn(built), hs, Targets(redirections))
        && errLines == err0 + Redirect.ErrorsFor(input, hs, |output|) && Redirect.Released(hs, built, output)
        && fileSystem.local.State()
           == Redirect.ReleasedState(fileSystem.local, hs, Redirect.Restrict(built, hs), cell0, output))
    }

    /** `execute` after `getExecutable(input)` gave `exe`: the command run, with its redirections. */
    method Run(input: string, exe: Attempt<Option<Node>>, redirections: seq<Redirection>, output: seq<string>, code: Option<int>)
      returns (o: Outcome, ghost hs: seq<Opened>, ghost built: map<Store, Node>)
      requires Valid()
      modifies this, fileSystem.Stores(), fileSystem.local
      ensures unchanged(environment) && Valid()
      ensures Ran(exe, input, redirections, output, code, o, hs, built, old(outLines), old(errLines), old(Trees()),
                  old(fileSystem.local.State()))
    {
      hs, built := [], Trees();
      if exe.Threw? {
        o := Aborted;
      } else if exe.value.None? {
        outLines := outLines + ["Command not found: " + input];
        o := Finished(Some(127));
      } else if redirections == [] {
        if IsCommand(exe.value.value) {
          outLines := outLines + output;
          o := Finished(code);
        } else {
          o := Aborted;
        }
      } else {
        o, hs, built := Redirected(input, redirections, exe.value.value, output, code);
      }
    }

    /**
     * `buildIo(input, redirections)`, then the command (`exe.content`) with
     * the built io, then `io.release()`.
     */
    method Redirected(input: string, redirections: seq<Redirection>, node: Node, output: seq<string>, code: Option<int>)
      returns (o: Outcome, ghost hs: seq<Opened>, ghost built: map<Store, Node>)
      requires Valid()
      modifies this`errLines, fileSystem.Stores(), fileSystem.local
      ensures unchanged(environment) && outLines == old(outLines)
      ensures RanRedirected(redirections, node, input, output, code, o, hs, built, old(errLines),
                            old(fileSystem.local.State()))
    {
      var io := BuildIo(redirections, Targets(redirections));
      if io.Threw? {
        return Aborted, [], Trees();
      }
      var handles := io.value;
      hs, built := handles, Trees();
      if !IsCommand(node) {
        return Aborted, hs, built;
      }
      Inside(handles, Targets(redirections));
      Release(input, handles, output, Targets(redirections));
      return Finished(code), hs, built;
    }

    /**
     * The command's lines through the io's writer, then `io.release()`:
     * an error line for each line and plain error handle, each tree holds
     * what the lines and the closes made of it, and the page's storage
     * holds what ReleasedState gives for the storage it held before.
     */
    method Release(input: string, hs: seq<Opened>, output: seq<string>, ghost ps: seq<string>)
      requires Valid() && OpenedAll(hs, ps)
      modifies this`errLines, Redirect.Handles(hs), Redirect.Stores(hs), fileSystem.local
      ensures errLines == old(errLines) + Redirect.ErrorsFor(input, hs, |output|)
      ensures Redirect.Released(hs, old(Trees()), output)
      ensures fileSystem.local.State()
              == Redirect.ReleasedState(fileSystem.local, hs, Redirect.Restrict(old(Trees()), hs),
                                        old(fileSystem.local.State()), output)
    {
      Inside(hs, ps);
      ghost var local, cell0 := fileSystem.local, fileSystem.local.State();
      ghost var start := Redirect.Roots(hs);
      RootsBuilt(hs);
      ghost var mid := WriteOutput(input, hs, output);
      ghost var roots := Redirect.Roots(hs);
      Redirect.CloseAll(hs);
      assert local in mid ==> local.State() == Redirect.SavedState(local, hs, |hs|, roots, mid[local], "", true);
      Redirect.ReleasedCell(local, hs, start, mid, cell0, local.State(), output);
    }

    /**
     * The command's lines through the io's writer: an error line for each
     * line and plain error handle, each tree holds what the lines made of
     * it, and `mid` is what each storage the wrappers save into holds now.
     */
    method WriteOutput(input: string, hs: seq<Opened>, output: seq<string>) returns (ghost mid: map<LocalStorage, StorageState>)
      requires Valid() && Redirect.Ready(hs) && Redirect.Syncers(hs) <= {fileSystem.local}
      modifies this`errLines, Redirect.Stores(hs), fileSystem.local
      ensures Redirect.Ready(hs)
      ensures errLines == old(errLines) + Redirect.ErrorsFor(input, hs, |output|)
      ensures forall s :: s in Redirect.Stores(hs) ==> s.root == Redirect.Delivered(old(s.root), s, hs, output)
      ensures Redirect.Roots(hs) == Redirect.DeliveredRoots(old(Redirect.Roots(hs)), hs, output)
      ensures mid == Redirect.Cells(hs)
      ensures mid.Keys == Redirect.Syncers(hs)
      ensures fileSystem.local in mid ==>
        mid[fileSystem.local]
        == Redirect.LinesState(fileSystem.local, hs, old(Redirect.Roots(hs)), old(fileSystem.local.State()), output)
      ensures fileSystem.local !in mid ==> fileSystem.local.State() == old(fileSystem.local.State())
    {
      ghost var cells0 := Redirect.Cells(hs);
      var errs := Redirect.WriteLines(input, hs, output);
      errLines := errLines + errs;
      mid := Redirect.Cells(hs);
      assert fileSystem.local in cells0 ==> cells0[fileSystem.local] == old(fileSystem.local.State());
    }

    /** The trees behind handles that write only into mounted trees, as they are now, are those of Trees(). */
    lemma RootsBuilt(hs: seq<Opened>)
      requires Valid() && Redirect.Stores(hs) <= fileSystem.Stores()
      ensures Redirect.Roots(hs) == Redirect.Restrict(Trees(), hs)
    {
    }

    /** Handles opened for redirections write only into mounted trees and save only into the page's storage. */
    lemma Inside(hs: seq<Opened>, ps: seq<string>)
      requires Valid() && Pairs.All(OpenedIn(Trees()), hs, ps)
      ensures Redirect.Stores(hs) <= fileSystem.Stores() && Redirect.Syncers(hs) <= {fileSystem.local}
    {
      Pairs.Each(OpenedIn(Trees()), hs, ps);
      forall i | 0 <= i < |hs|
        ensures hs[i].Handle().store in fileSystem.Stores()
        ensures hs[i].Synced? ==> hs[i].wh.fs.local == fileSystem.local
      {
        assert OpenedFor(hs[i], ps[i], Trees());
        fileSystem.Mounted(ps[i]);
      }
    }
  }
}
