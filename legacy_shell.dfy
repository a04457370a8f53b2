/**
 * The shell of the two earlier generations, the `Shell` class of
 * app/classes/Shell.js and of shell.js: one file system, the variables, the
 * lookup of a command in the table PATH yields, and `execute`, which runs
 * one command line with its output redirected into files. The two differ
 * only in the parser they call (`buildCmdLine` or `_buildCmdLine`).
 *
 * What a command does when it runs is given: the lines it writes through
 * `out` (`output`) and the value it returns or resolves (`code`).
 */
module LegacyShell {
  import opened Wrappers
  import opened Dict
  import opened Text
  import opened Tree
  import opened BaseFs
  import opened Backends
  import opened Env
  import opened Parsed
  import opened Executables
  import opened LegacyFs
  import opened Commands
  import BuildCmdLine
  import Scheduler
  import Redirect
  import Handle

  /**
   * `h` is the handle `openFile` gave for the full path `p` in the store
   * `s`, as seen in the tree `root`: an error handle saying `permission
   * denied` with the last segment, or a handle appending to a node of the
   * tree.
   */
  predicate OpenedFor(h: Opened, p: string, s: Store, root: Node) {
    h.Plain? && h.fh.store == s && h.fh.version == Handle.Legacy
    && (h.fh.mode == "error" ==> h.fh.error == "permission denied: " + Leaf(p))
    && (h.fh.mode != "error" ==> h.fh.mode == "append" && h.fh.file.Some? && At(root, h.fh.file.value).Some?)
  }

  /** A handle opened earlier still describes the tree after it grew. */
  lemma OpenedStays(h: Opened, p: string, s: Store, before: Node, after: Node)
    requires OpenedFor(h, p, s, before) && Grows(before, after)
    ensures OpenedFor(h, p, s, after)
  {
  }

  /** The full path of `path` under the variables `env`: None when the path is relative and reading PWD throws. */
  function FullPath(env: Dict<string>, path: string): (r: Option<string>)
    ensures r.Some? <==> StartsWith(path, "/") || env.Has("PWD")
    ensures r.Some? ==> StartsWith(path, "/") ==> r.value == path
    ensures r.Some? && !StartsWith(path, "/") ==> r.value == FromCwd(env.vals["PWD"], path)
  {
    if StartsWith(path, "/") then Some(path)
    else if env.Has("PWD") then Some(FromCwd(env.vals["PWD"], path))
    else None
  }

  /**
   * The handles `hs` are those `openFile` gave for the redirections, in
   * order, under the variables `env`, for the store `s` as seen in the
   * tree `root`.
   */
  predicate OpenedEach(hs: seq<Opened>, redirections: seq<Redirection>, env: Dict<string>, s: Store, root: Node) {
    |hs| == |redirections|
    && forall j :: 0 <= j < |hs| ==>
         FullPath(env, redirections[j].target).Some?
         && OpenedFor(hs[j], FullPath(env, redirections[j].target).value, s, root)
  }

  /** As OpenedEach, with every handle distinct and ready to take writes. */
  ghost predicate OpenedAll(hs: seq<Opened>, redirections: seq<Redirection>, env: Dict<string>, s: Store, root: Node)
    reads Redirect.Handles(hs)
  {
    OpenedEach(hs, redirections, env, s, root) && Redirect.Ready(hs) && Redirect.Distinct(hs)
  }

  /** The handles opened so far still describe the grown tree, and the handle for the next redirection joins them. */
  lemma EachExtended(hs: seq<Opened>, redirections: seq<Redirection>, i: nat, h: Opened, env: Dict<string>, s: Store, before: Node, after: Node)
    requires i < |redirections| && OpenedEach(hs, redirections[..i], env, s, before) && Grows(before, after)
    requires FullPath(env, redirections[i].target).Some? && OpenedFor(h, FullPath(env, redirections[i].target).value, s, after)
    ensures OpenedEach(hs + [h], redirections[..i + 1], env, s, after)
  {
    var hs' := hs + [h];
    forall j | 0 <= j < |hs'|
      ensures FullPath(env, redirections[..i + 1][j].target).Some?
      ensures OpenedFor(hs'[j], FullPath(env, redirections[..i + 1][j].target).value, s, after)
    {
      if j < |hs| {
        assert hs'[j] == hs[j] && redirections[..i + 1][j] == redirections[..i][j];
        OpenedStays(hs[j], FullPath(env, redirections[j].target).value, s, before, after);
      }
    }
  }

  class Shell {
    /** `App` for app/classes/Shell.js, `Legacy` for shell.js. */
    const dialect: BuildCmdLine.Dialect
    /** `inProcess`, `sigIntReceived`, and whether `exit` was run. */
    const flags: Scheduler.Flags
    const environment: Environment
    const fileSystem: LegacyFileSystem
    /** The lines written by `out` and `err`. */
    var outLines: seq<string>
    var errLines: seq<string>

    /** The store has no RANDOM. */
    ghost predicate Valid()
      reads environment
    {
      environment.Valid() && !environment.randomKey
    }

    /** `new Shell(env, files)`: the variables of `env`, the tree of the description, no command running. */
    constructor(dialect: BuildCmdLine.Dialect, env: Dict<string>, files: Dict<Desc>)
      requires env.Valid() && "/" in CreateFileSystem(files).vals
      ensures Valid() && this.dialect == dialect
      ensures environment.values == env && fileSystem.store.root == CreateFileSystem(files).vals["/"]
      ensures !flags.inProcess && !flags.sigIntReceived && !flags.exited
      ensures outLines == [] && errLines == []
    {
      this.dialect := dialect;
      flags := new Scheduler.Flags();
      environment := new Environment(env, false);
      fileSystem := new LegacyFileSystem(files);
      outLines := [];
      errLines := [];
    }

    /** `getPath(path)`: the lookup of the full path; Threw when PWD is read and unset. */
    method GetPath(path: string) returns (r: Attempt<GetResult>)
      ensures r.Threw? <==> FullPath(environment.values, path).None?
      ensures r.Done? ==> r.value == LegacyGetSpec(fileSystem.store.root, FullPath(environment.values, path).value, false)
    {
      var p := FullPath(environment.values, path);
      if p.None? {
        return Threw;
      }
      var f := fileSystem.Get(p.value, false);
      return Done(f);
    }

    /** `createFile(path)`: `create` on the full path; Threw when PWD is unset or `create` throws. */
    method CreateFile(path: string) returns (r: Attempt<Option<GetResult>>)
      modifies fileSystem.store
      ensures r.Threw? <==> FullPath(environment.values, path).None? || LegacyThrows(old(fileSystem.store.root), FullPath(environment.values, path).value)
      ensures r.Threw? ==> fileSystem.store.root == old(fileSystem.store.root)
      ensures r.Done? ==> LegacyCreateOutcome(old(fileSystem.store.root), fileSystem.store.root, FullPath(environment.values, path).value, false, r.value)
    {
      var p := FullPath(environment.values, path);
      if p.None? || LegacyThrows(fileSystem.store.root, p.value) {
        return Threw;
      }
      var c := fileSystem.Create(p.value, false);
      return Done(c);
    }

    /** `openFile` does not throw for `path` on the tree as it is. */
    predicate Openable(path: string)
      reads environment, fileSystem.store
    {
      FullPath(environment.values, path).Some? && !LegacyOpenThrows(fileSystem.store.root, FullPath(environment.values, path).value)
    }

    /**
     * `openFile(path)`: `open` on the full path, in the default mode
     * `'append'` whatever the redirection asked for; Threw when it throws.
     * The tree only grows.
     */
    method OpenFile(path: string) returns (r: Attempt<Opened>)
      modifies fileSystem.store
      ensures r.Threw? <==> !old(Openable(path))
      ensures Grows(old(fileSystem.store.root), fileSystem.store.root)
      ensures r.Threw? ==> fileSystem.store.root == old(fileSystem.store.root)
      ensures r.Done? ==> var h := r.value.Handle();
        && fresh(h) && h.Valid() && (h.closed <==> h.mode == "error")
        && LegacyOpenOutcome(old(fileSystem.store.root), fileSystem.store.root, FullPath(environment.values, path).value, "append", h)
        && OpenedFor(r.value, FullPath(environment.values, path).value, fileSystem.store, fileSystem.store.root)
    {
      var p := FullPath(environment.values, path);
      if p.None? || LegacyOpenThrows(fileSystem.store.root, p.value) {
        return Threw;
      }
      ghost var before := fileSystem.store.root;
      var fh := fileSystem.Open(p.value, "append");
      LegacyOpenKeeps(before, fileSystem.store.root, p.value, fh);
      return Done(Plain(fh));
    }

    /** The PATH entries, `PATH.split(':')`. */
    function PathEntries(): seq<string>
      requires environment.values.Has("PATH")
      reads environment
    {
      Split(environment.values.vals["PATH"], ':')
    }

    /** Each PATH entry looked up with `get`. */
    function Lookups(paths: seq<string>): (r: seq<GetResult>)
      reads fileSystem.store
      ensures |r| == |paths|
      decreases |paths|
    {
      if paths == [] then []
      else Lookups(paths[..|paths| - 1]) + [LegacyGetSpec(fileSystem.store.root, paths[|paths| - 1], false)]
    }

    /**
     * `getExecutablesInPath()`: the executable children of the PATH
     * directories merged, a later entry winning, then `exit` and `clear`;
     * Threw when PATH is unset. An entry that is missing or a file adds
     * nothing.
     */
    function ExecutablesInPath(): (r: Attempt<Dict<Node>>)
      reads environment, fileSystem.store
      ensures r.Done? <==> environment.values.Has("PATH")
      ensures r.Done? ==> (r.value.Valid()
        && r.value.Get("exit") == Some(Builtin("exit")) && r.value.Get("clear") == Some(Builtin("clear")))
    {
      if !environment.values.Has("PATH") then Threw
      else
        LaterPathWins(Lookups(PathEntries()), "");
        Done(WithBuiltins(PathTable(Lookups(PathEntries()))))
    }

    /**
     * Any name other than the built-ins is found exactly when some PATH
     * directory has it as an executable child, and then it is the child of
     * the last such directory: there is no lookup of the name itself.
     */
    lemma PathLookup(name: string)
      requires environment.values.Has("PATH") && name != "exit" && name != "clear"
      ensures ExecutablesInPath().value.Get(name) == PathTable(Lookups(PathEntries())).Get(name)
      ensures var found := Lookups(PathEntries());
        PathTable(found).Get(name) ==
          if exists i :: 0 <= i < |found| && Offers(found[i], name)
          then Some(found[LastOffer(found, name)].node.children.vals[name]) else None
    {
      var found := Lookups(PathEntries());
      LaterPathWins(found, name);
      var table := ExecutablesInPath().value;
      assert table == WithBuiltins(PathTable(found));
      assert table.Get(name) == PathTable(found).Get(name);
    }

    /** `Object.keys(variables).forEach(key => this.setenv(key, ...))` */
    method SetVariables(variables: Dict<string>)
      requires Valid()
      modifies environment
      ensures Valid()
      ensures environment.values == Assign(old(environment.values), variables, variables.keys)
    {
      var i := 0;
      while i < |variables.keys|
        invariant 0 <= i <= |variables.keys|
        invariant Valid()
        invariant environment.values == Assign(old(environment.values), variables, variables.keys[..i])
      {
        var k := variables.keys[i];
        assert variables.keys[..i + 1][..i] == variables.keys[..i];
        if k in variables.vals {
          environment.Set(k, variables.vals[k]);
        }
        i := i + 1;
      }
      assert variables.keys[..i] == variables.keys;
    }

    /**
     * `redirections.map(r => this.openFile(r.target, r.mode))`: every
     * target opened in turn; Threw when an open throws, on the tree as it
     * was then (an open that throws changes nothing). The tree only grows.
     */
    method OpenAll(redirections: seq<Redirection>) returns (r: Attempt<seq<Opened>>)
      modifies fileSystem.store
      ensures Grows(old(fileSystem.store.root), fileSystem.store.root)
      ensures r.Threw? ==> exists i :: 0 <= i < |redirections| && !Openable(redirections[i].target)
      ensures r.Done? ==> OpenedAll(r.value, redirections, environment.values, fileSystem.store, fileSystem.store.root) && fresh(Redirect.Handles(r.value))
    {
      var hs: seq<Opened> := [];
      var i := 0;
      while i < |redirections|
        invariant 0 <= i <= |redirections|
        invariant Grows(old(fileSystem.store.root), fileSystem.store.root)
        invariant OpenedAll(hs, redirections[..i], environment.values, fileSystem.store, fileSystem.store.root) && fresh(Redirect.Handles(hs))
      {
        ghost var before := fileSystem.store.root;
        var next := OpenNext(hs, redirections, i);
        GrowsTrans(old(fileSystem.store.root), before, fileSystem.store.root);
        if next.Threw? {
          return Threw;
        }
        hs := next.value;
        i := i + 1;
      }
      assert redirections[..i] == redirections;
      return Done(hs);
    }

    /** Opening the target of redirection `i`: the handles so far still describe the grown tree, and the new one joins them. */
    method OpenNext(hs: seq<Opened>, redirections: seq<Redirection>, i: nat) returns (r: Attempt<seq<Opened>>)
      requires i < |redirections| && OpenedAll(hs, redirections[..i], environment.values, fileSystem.store, fileSystem.store.root)
      modifies fileSystem.store
      ensures Grows(old(fileSystem.store.root), fileSystem.store.root)
      ensures r.Threw? ==> !Openable(redirections[i].target)
      ensures r.Done? ==> OpenedAll(r.value, redirections[..i + 1], environment.values, fileSystem.store, fileSystem.store.root)
      ensures r.Done? ==> exists h :: fresh(h) && Redirect.Handles(r.value) == Redirect.Handles(hs) + {h}
    {
      ghost var before := fileSystem.store.root;
      var h := OpenFile(redirections[i].target);
      if h.Threw? {
        return Threw;
      }
      Redirect.Extended(hs, h.value);
      EachExtended(hs, redirections, i, h.value, environment.values, fileSystem.store, before, fileSystem.store.root);
      var hs' := hs + [h.value];
      return Done(hs');
    }
    /**
     * `execute(value)`: the line is built; a line without arguments stores
     * its assignments and settles with `undefined`; otherwise the first
     * argument is looked up in `getExecutablesInPath()` and run (see Ran).
     * A command writes the lines `output` and returns `code`; `hs` are the
     * handles of the redirections and `built` the tree just after they were
     * opened.
     */
    method Execute(value: string, output: seq<string>, code: Option<int>)
      returns (o: Outcome, ghost hs: seq<Opened>, ghost built: Node)
      requires Valid()
      modifies this, environment, fileSystem.store
      ensures Valid()
      ensures var line := BuildCmdLine.BuildSpec(dialect, value, old(environment.values));
        line.args == [] ==>
          && o == Finished(None)
          && environment.values == Assign(old(environment.values), line.variables, line.variables.keys)
          && outLines == old(outLines) && errLines == old(errLines) && fileSystem.store.root == old(fileSystem.store.root)
      ensures var line := BuildCmdLine.BuildSpec(dialect, value, old(environment.values));
        line.args != [] ==>
          && environment.values == old(environment.values)
          && Ran(old(ExecutablesInPath()), line.args[0], line.redirections, output, code, o, hs, built,
                 old(outLines), old(errLines), old(fileSystem.store.root))
    {
      var line := BuildCmdLine.Build(dialect, value, environment);
      o, hs, built := Dispatch(line, output, code);
    }

    /** `execute` once the line is built. */
    method Dispatch(line: ParsedLine, output: seq<string>, code: Option<int>)
      returns (o: Outcome, ghost hs: seq<Opened>, ghost built: Node)
      requires Valid()
      modifies this, environment, fileSystem.store
      ensures Valid()
      ensures line.args == [] ==>
        && o == Finished(None)
        && environment.values == Assign(old(environment.values), line.variables, line.variables.keys)
        && outLines == old(outLines) && errLines == old(errLines) && fileSystem.store.root == old(fileSystem.store.root)
      ensures line.args != [] ==>
        && environment.values == old(environment.values)
        && Ran(old(ExecutablesInPath()), line.args[0], line.redirections, output, code, o, hs, built,
               old(outLines), old(errLines), old(fileSystem.store.root))
    {
      if line.args == [] {
        SetVariables(line.variables);
        return Finished(None), [], fileSystem.store.root;
      }
      var table := ExecutablesInPath();
      o, hs, built := Run(line.args[0], table, line.redirections, output, code);
    }

    /**
     * What running the command `input` did, for the table
     * `getExecutablesInPath()` gave, with the lines written and the tree as
     * they were before: Aborted when building the table threw (PATH unset);
     * `Command not found` and 127 with nothing opened when the table has no
     * `input`; otherwise the command's output and result as RanRedirected
     * states, or straight to the output when there are no redirections, and
     * Aborted when the node found is not a function.
     */
    ghost predicate Ran(table: Attempt<Dict<Node>>, input: string, redirections: seq<Redirection>,
                        output: seq<string>, code: Option<int>, o: Outcome, hs: seq<Opened>,
                        built: Node, out0: seq<string>, err0: seq<string>, root0: Node)
      reads this, environment, fileSystem.store, Redirect.Handles(hs), Redirect.Stores(hs)
    {
      if table.Threw? then o == Aborted && outLines == out0 && errLines == err0 && fileSystem.store.root == root0
      else if table.value.Get(input).None? then
        o == Finished(Some(127)) && outLines == out0 + ["Command not found: " + input]
        && errLines == err0 && fileSystem.store.root == root0
      else if redirections == [] then
        var node := table.value.Get(input).value;
        o == (if IsCommand(node) then Finished(code) else Aborted)
        && outLines == (if IsCommand(node) then out0 + output else out0)
        && errLines == err0 && fileSystem.store.root == root0
      else outLines == out0 && RanRedirected(redirections, table.value.Get(input).value, input, output, code, o, hs, built, err0, root0)
    }

    /**
     * The redirected run: every target is opened first; the run aborts
     * only when an open threw or the node found is not a function, and then
     * the tree only grew; when it finishes, every redirection target had its
     * handle opened on the tree `built`, each line went through every
     * handle (error lines for the error handles), and every handle was
     * closed.
     */
    ghost predicate RanRedirected(redirections: seq<Redirection>, node: Node, input: string, output: seq<string>,
                                  code: Option<int>, o: Outcome, hs: seq<Opened>, built: Node, err0: seq<string>, root0: Node)
      reads this, environment, fileSystem.store, Redirect.Handles(hs), Redirect.Stores(hs)
    {
      && (o.Aborted? ==> Grows(root0, fileSystem.store.root))
      && (o.Aborted? ==> !IsCommand(node) || exists i :: 0 <= i < |redirections| && !Openable(redirections[i].target))
      && (o.Finished? ==>
        && IsCommand(node) && o == Finished(code) && Grows(root0, built)
        && OpenedEach(hs, redirections, environment.values, fileSystem.store, built)
        && errLines == err0 + Redirect.ErrorsFor(input, hs, |output|)
        && Redirect.Released(hs, map[fileSystem.store := built], output))
    }

    /** `execute` after `getExecutablesInPath()` gave `table`: the command run, with its redirections. */
    method Run(input: string, table: Attempt<Dict<Node>>, redirections: seq<Redirection>, output: seq<string>, code: Option<int>)
      returns (o: Outcome, ghost hs: seq<Opened>, ghost built: Node)
      modifies this, fileSystem.store
      ensures unchanged(environment)
      ensures Ran(table, input, redirections, output, code, o, hs, built, old(outLines), old(errLines), old(fileSystem.store.root))
    {
      hs, built := [], fileSystem.store.root;
      if table.Threw? {
        o := Aborted;
      } else if table.value.Get(input).None? {
        outLines := outLines + ["Command not found: " + input];
        o := Finished(Some(127));
      } else if redirections == [] {
        if IsCommand(table.value.Get(input).value) {
          outLines := outLines + output;
          o := Finished(code);
        } else {
          o := Aborted;
        }
      } else {
        o, hs, built := Redirected(input, redirections, table.value.Get(input).value, output, code);
      }
    }

    /**
     * The redirections opened, the command (`content`) called with an `out`
     * that writes each line to every handle, then every handle closed.
     */
    method Redirected(input: string, redirections: seq<Redirection>, node: Node, output: seq<string>, code: Option<int>)
      returns (o: Outcome, ghost hs: seq<Opened>, ghost built: Node)
      modifies this`errLines, fileSystem.store
      ensures unchanged(environment) && outLines == old(outLines)
      ensures RanRedirected(redirections, node, input, output, code, o, hs, built, old(errLines), old(fileSystem.store.root))
    {
      var io := OpenAll(redirections);
      if io.Threw? {
        return Aborted, [], fileSystem.store.root;
      }
      var handles := io.value;
      hs, built := handles, fileSystem.store.root;
      if !IsCommand(node) {
        return Aborted, hs, built;
      }
      Inside(handles, redirections, built);
      Deliver(input, handles, output, built);
      return Finished(code), hs, built;
    }

    /**
     * The command's `out` called with each line in turn, writing it to
     * every handle (an error handle adds an error line instead), then every
     * handle closed.
     */
    method Deliver(input: string, hs: seq<Opened>, output: seq<string>, ghost start: Node)
      requires fileSystem.store.root == start
      requires Redirect.Ready(hs) && Redirect.Distinct(hs)
      requires Redirect.Stores(hs) <= {fileSystem.store} && Redirect.Syncers(hs) == {}
      modifies this`errLines, fileSystem.store, Redirect.Handles(hs)
      ensures errLines == old(errLines) + Redirect.ErrorsFor(input, hs, |output|)
      ensures Redirect.Released(hs, map[fileSystem.store := start], output)
    {
      var errs := Redirect.WriteLines(input, hs, output);
      errLines := errLines + errs;
      Redirect.CloseAll(hs);
    }

    /** Handles opened for redirections write only into this file system's tree. */
    lemma Inside(hs: seq<Opened>, redirections: seq<Redirection>, root: Node)
      requires OpenedEach(hs, redirections, environment.values, fileSystem.store, root)
      ensures Redirect.Stores(hs) <= {fileSystem.store} && Redirect.Syncers(hs) == {}
      ensures |hs| > 0 ==> fileSystem.store in Redirect.Stores(hs)
    {
      forall i | 0 <= i < |hs|
        ensures hs[i].Handle().store == fileSystem.store && hs[i].Plain?
      {
        assert OpenedFor(hs[i], FullPath(environment.values, redirections[i].target).value, fileSystem.store, root);
      }
      if |hs| > 0 {
        assert hs[0].Handle().store == fileSystem.store;
      }
    }
  }
}
