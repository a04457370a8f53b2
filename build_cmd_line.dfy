/**
 * The character-loop parser of the two earlier shell generations:
 * `buildCmdLine` (app/functions/buildCmdLine.js) and `Shell._buildCmdLine`
 * (shell.js). Both walk the characters of the line once with the states
 * INPUT, VARIABLE, ARGS and REDIRECTION; the app version pads runs of `<`/`>`
 * first and also knows `<`.
 */
module BuildCmdLine {
  import opened Wrappers
  import opened Dict
  import opened Text
  import opened Env
  import opened Parsed

  /** `App` is app/functions/buildCmdLine.js, `Legacy` is `_buildCmdLine` of shell.js. */
  datatype Dialect = App | Legacy

  datatype State = Input | Variable | Args | Redirecting

  /** A collected argument `{value, inSingleQuotes}`. */
  datatype RawArg = RawArg(value: string, inSingleQuotes: bool)

  /**
   * The loop's variables. `previous` is the character of the previous round
   * (None before the first, where the source has `''`).
   */
  datatype Scan = Scan(input: string, variableName: string, variables: Dict<string>, state: State,
                       args: seq<RawArg>, inDoubleQuotes: bool, inSingleQuotes: bool,
                       redirections: seq<Redirection>, mode: string, previous: Option<char>)

  const Init := Scan("", "", Empty(), Input, [], false, false, [], "append", None)

  /** The number of leading `<` and `>` characters. */
  function OperatorRun(s: string): (n: nat)
    ensures n <= |s|
    ensures forall i :: 0 <= i < n ==> s[i] == '<' || s[i] == '>'
    ensures n < |s| ==> s[n] != '<' && s[n] != '>'
  {
    if s == [] || (s[0] != '<' && s[0] != '>') then 0 else 1 + OperatorRun(s[1..])
  }

  /** `replaceAll(/([<>]+)/g, ' $1 ')`: a mixed run of `<` and `>` counts as one. */
  function PadMixed(s: string): string
    decreases |s|
  {
    if s == [] then []
    else if s[0] == '<' || s[0] == '>' then
      var n := OperatorRun(s);
      " " + s[..n] + " " + PadMixed(s[n..])
    else [s[0]] + PadMixed(s[1..])
  }

  /** The characters the loop walks: the line plus a terminating space, padded in the app version. */
  function Chars(dialect: Dialect, value: string): string {
    if dialect == App then PadMixed(value + " ") else value + " "
  }

  /** A space after one of these is skipped. */
  predicate SkipsSpaceAfter(dialect: Dialect, previous: Option<char>) {
    previous == Some(' ') || previous == Some('>') || (dialect == App && previous == Some('<'))
  }

  predicate IsRedirectionChar(dialect: Dialect, c: char) {
    c == '>' || (dialect == App && c == '<')
  }

  /** `args.push({value: input, inSingleQuotes: previous === '\''})`, then `input = ''`. */
  function PushArg(s: Scan, previous: Option<char>): Scan {
    s.(args := s.args + [RawArg(s.input, previous == Some('\''))], input := "")
  }

  /** One round of the loop with `current` = c. */
  function Step(dialect: Dialect, s0: Scan, c: char): Scan {
    var previous := s0.previous;
    var s := s0.(previous := Some(c));
    if previous != Some('\\') && c == '"' then s.(inDoubleQuotes := !s.inDoubleQuotes)
    else if previous != Some('\\') && c == '\'' then s.(inSingleQuotes := !s.inSingleQuotes)
    else if s.inDoubleQuotes || s.inSingleQuotes then s.(input := s.input + [c])
    else if SkipsSpaceAfter(dialect, previous) && c == ' ' then s
    else if IsRedirectionChar(dialect, c) then
      s.(state := Redirecting, mode := if c == '<' then "read" else if previous == Some('>') then "append" else "overwrite")
    else
      match s.state
      case Input =>
        if c == '=' then s.(state := Variable, variableName := s.input, input := "")
        else if c == ' ' then PushArg(s, previous).(state := Args)
        else s.(input := s.input + [c])
      case Variable =>
        if c == ' ' then s.(variables := s.variables.Put(s.variableName, s.input), input := "", state := Input)
        else s.(input := s.input + [c])
      case Args =>
        if c == ' ' then PushArg(s, previous)
        else s.(input := s.input + [c])
      case Redirecting =>
        if c == ' ' then
          s.(redirections := s.redirections + [Redirection(s.mode, s.input)], mode := "append", input := "", state := Input)
        else s.(input := s.input + [c])
  }

  /** The loop's variables after the characters cs, starting from s. */
  function ScanFrom(dialect: Dialect, s: Scan, cs: string): Scan
    decreases |cs|
  {
    if cs == [] then s else ScanFrom(dialect, Step(dialect, s, cs[0]), cs[1..])
  }

  lemma {:induction false} ScanAppend(dialect: Dialect, s: Scan, a: string, b: string)
    ensures ScanFrom(dialect, s, a + b) == ScanFrom(dialect, ScanFrom(dialect, s, a), b)
    decreases |a|
  {
    if a == [] {
      assert a + b == b;
    } else {
      assert (a + b)[0] == a[0] && (a + b)[1..] == a[1..] + b;
      ScanAppend(dialect, Step(dialect, s, a[0]), a[1..], b);
    }
  }

  /**
   * The `reduce` over the assignments in key order: each value is substituted
   * with the assignments resolved before it, then the environment.
   */
  function Resolve(variables: Dict<string>, keys: seq<string>, env: Dict<string>): Dict<string>
    requires forall i :: 0 <= i < |keys| ==> keys[i] in variables.vals
  {
    if keys == [] then Empty()
    else
      var front := keys[..|keys| - 1];
      var k := keys[|keys| - 1];
      var result := Resolve(variables, front, env);
      result.Put(k, Expand(variables.vals[k], result, env, None))
  }

  /** A single-quoted argument as collected, any other one substituted. */
  function ArgText(a: RawArg, variables: Dict<string>, env: Dict<string>): string {
    if a.inSingleQuotes then a.value else Expand(a.value, variables, env, None)
  }

  /** The parsed line of `value` under the environment's values. */
  ghost function BuildSpec(dialect: Dialect, value: string, env: Dict<string>): ParsedLine {
    var s := ScanFrom(dialect, Init, Chars(dialect, value));
    var variables := if s.variables.Valid() then Resolve(s.variables, s.variables.keys, env) else Empty();
    ParsedLine(variables, seq(|s.args|, i requires 0 <= i < |s.args| => ArgText(s.args[i], variables, env)), s.redirections)
  }

  lemma {:induction false} ScanValid(dialect: Dialect, s: Scan, cs: string)
    requires s.variables.Valid()
    ensures ScanFrom(dialect, s, cs).variables.Valid()
    decreases |cs|
  {
    if cs != [] {
      ScanValid(dialect, Step(dialect, s, cs[0]), cs[1..]);
    }
  }

  /** The character loop of `buildCmdLine`. */
  method ScanChars(dialect: Dialect, chars: string) returns (s: Scan)
    ensures s == ScanFrom(dialect, Init, chars)
  {
    // The loop's variables `input`, `variableName`, `variables`, `state`, `args`,
    // the two quote flags, `redirections`, `redirectionMode` and `current`.
    s := Init;
    var i := 0;
    while i < |chars|
      invariant 0 <= i <= |chars|
      invariant s == ScanFrom(dialect, Init, chars[..i])
    {
      ScanAppend(dialect, Init, chars[..i], [chars[i]]);
      assert chars[..i + 1] == chars[..i] + [chars[i]];
      var previous := s.previous;
      var c := chars[i];
      s := s.(previous := Some(c));
      i := i + 1;
      if previous != Some('\\') && c == '"' {
        s := s.(inDoubleQuotes := !s.inDoubleQuotes);
        continue;
      }
      if previous != Some('\\') && c == '\'' {
        s := s.(inSingleQuotes := !s.inSingleQuotes);
        continue;
      }
      if s.inDoubleQuotes || s.inSingleQuotes {
        s := s.(input := s.input + [c]);
        continue;
      }
      if SkipsSpaceAfter(dialect, previous) && c == ' ' {
        continue;
      }
      if IsRedirectionChar(dialect, c) {
        s := s.(state := Redirecting, mode := if c == '<' then "read" else if previous == Some('>') then "append" else "overwrite");
        continue;
      }
      match s.state {
        case Input =>
          if c == '=' {
            s := s.(state := Variable, variableName := s.input, input := "");
          } else if c == ' ' {
            s := s.(state := Args, args := s.args + [RawArg(s.input, previous == Some('\''))], input := "");
          } else {
            s := s.(input := s.input + [c]);
          }
        case Variable =>
          if c == ' ' {
            s := s.(variables := s.variables.Put(s.variableName, s.input), input := "", state := Input);
          } else {
            s := s.(input := s.input + [c]);
          }
        case Args =>
          if c == ' ' {
            s := s.(args := s.args + [RawArg(s.input, previous == Some('\''))], input := "");
          } else {
            s := s.(input := s.input + [c]);
          }
        case Redirecting =>
          if c == ' ' {
            s := s.(redirections := s.redirections + [Redirection(s.mode, s.input)], mode := "append", input := "", state := Input);
          } else {
            s := s.(input := s.input + [c]);
          }
      }
    }
    assert chars[..i] == chars;
  }

  /** One more key of the `reduce`: its value substituted with the assignments resolved before it. */
  lemma ResolveStep(variables: Dict<string>, keys: seq<string>, k: nat, env: Dict<string>, before: Dict<string>, value: string)
    requires k < |keys| && forall i :: 0 <= i < |keys| ==> keys[i] in variables.vals
    requires before == Resolve(variables, keys[..k], env) && value == Expand(variables.vals[keys[k]], before, env, None)
    ensures Resolve(variables, keys[..k + 1], env) == before.Put(keys[k], value)
  {
    assert keys[..k + 1][..k] == keys[..k];
  }

  /**
   * Each assignment, among distinct keys, resolves to its raw value
   * substituted with exactly the assignments resolved before it, and
   * every other name is absent.
   */
  lemma {:induction false} ResolveGet(variables: Dict<string>, keys: seq<string>, env: Dict<string>, i: nat)
    requires forall j :: 0 <= j < |keys| ==> keys[j] in variables.vals
    requires forall j, l :: 0 <= j < l < |keys| ==> keys[j] != keys[l]
    requires i < |keys|
    ensures Resolve(variables, keys, env).Get(keys[i])
         == Some(Expand(variables.vals[keys[i]], Resolve(variables, keys[..i], env), env, None))
    decreases |keys|
  {
    var front := keys[..|keys| - 1];
    if i < |keys| - 1 {
      assert front[i] == keys[i] && front[..i] == keys[..i];
      ResolveGet(variables, front, env, i);
    } else {
      assert keys[..i] == front;
    }
  }

  /** A name that is not among the keys is not resolved. */
  lemma {:induction false} ResolveAbsent(variables: Dict<string>, keys: seq<string>, env: Dict<string>, name: string)
    requires forall j :: 0 <= j < |keys| ==> keys[j] in variables.vals
    requires name !in keys
    ensures Resolve(variables, keys, env).Get(name) == None
    decreases |keys|
  {
    if keys != [] {
      var front := keys[..|keys| - 1];
      assert forall x :: x in front ==> x in keys;
      ResolveAbsent(variables, front, env, name);
    }
  }

  /** The `reduce` that resolves the assignments in key order. */
  method ResolveVariables(variables: Dict<string>, environment: Environment) returns (resolved: Dict<string>)
    requires variables.Valid() && !environment.randomKey
    ensures resolved == Resolve(variables, variables.keys, environment.values)
  {
    var keys := variables.keys;
    resolved := Empty<string>();
    var k := 0;
    while k < |keys|
      invariant 0 <= k <= |keys|
      invariant resolved == Resolve(variables, keys[..k], environment.values)
    {
      var value := environment.ApplyOnString(variables.vals[keys[k]], resolved, 0);
      ResolveStep(variables, keys, k, environment.values, resolved, value);
      resolved := resolved.Put(keys[k], value);
      k := k + 1;
    }
    assert keys[..k] == keys;

  }

  /**
   * `buildCmdLine(value, environment)` / `_buildCmdLine(value)`. The
   * environment is the shell.js store, which has no RANDOM.
   */
  method Build(dialect: Dialect, value: string, environment: Environment) returns (line: ParsedLine)
    requires !environment.randomKey
    ensures line == BuildSpec(dialect, value, environment.values)
  {
    var chars := Chars(dialect, value);
    var s := ScanChars(dialect, chars);
    ScanValid(dialect, Init, chars);
    var resolved := ResolveVariables(s.variables, environment);
    var args := s.args;
    var envValues := environment.values;
    var out := seq(|args|, n requires 0 <= n < |args| =>
      if args[n].inSingleQuotes then args[n].value else Expand(args[n].value, resolved, envValues, None));
    line := ParsedLine(resolved, out, s.redirections);
  }

  // ----- One round -----

  lemma ScanStep(dialect: Dialect, s: Scan, c: char, rest: string)
    ensures ScanFrom(dialect, s, [c] + rest) == ScanFrom(dialect, Step(dialect, s, c), rest)
  {
    assert ([c] + rest)[0] == c && ([c] + rest)[1..] == rest;
  }

  /** An unescaped quote toggles its own flag, even inside the other kind of quote, and is dropped. */
  lemma QuoteToggles(dialect: Dialect, s: Scan, c: char)
    requires s.previous != Some('\\') && (c == '"' || c == '\'')
    ensures Step(dialect, s, c) == if c == '"' then s.(inDoubleQuotes := !s.inDoubleQuotes, previous := Some(c))
                                   else s.(inSingleQuotes := !s.inSingleQuotes, previous := Some(c))
  {
  }

  /** Inside quotes every other character, spaces and operators included, is taken literally. */
  lemma QuotedLiteral(dialect: Dialect, s: Scan, c: char)
    requires s.inDoubleQuotes || s.inSingleQuotes
    requires s.previous == Some('\\') || (c != '"' && c != '\'')
    ensures Step(dialect, s, c) == s.(input := s.input + [c], previous := Some(c))
  {
  }

  /**
   * The mode of an operator: `'read'` for `<` (app only), `'append'` for a `>`
   * right after `>`, `'overwrite'` for any other `>`.
   */
  lemma OperatorMode(dialect: Dialect, s: Scan, c: char)
    requires !s.inDoubleQuotes && !s.inSingleQuotes && IsRedirectionChar(dialect, c)
    ensures Step(dialect, s, c) == s.(state := Redirecting, previous := Some(c),
      mode := if c == '<' then "read" else if s.previous == Some('>') then "append" else "overwrite")
  {
  }

  /** The space ending a target records the redirection and resets the mode to `'append'`. */
  lemma TargetEnds(dialect: Dialect, s: Scan)
    requires !s.inDoubleQuotes && !s.inSingleQuotes && s.state == Redirecting
    requires !SkipsSpaceAfter(dialect, s.previous)
    ensures Step(dialect, s, ' ') == s.(redirections := s.redirections + [Redirection(s.mode, s.input)],
      mode := "append", input := "", state := Input, previous := Some(' '))
  {
  }

  /** Only INPUT makes `=` start an assignment; in ARGS it is ordinary text. */
  lemma EqualsOnlyInInput(dialect: Dialect, s: Scan)
    requires !s.inDoubleQuotes && !s.inSingleQuotes
    ensures s.state == Input ==> Step(dialect, s, '=') == s.(state := Variable, variableName := s.input, input := "", previous := Some('='))
    ensures s.state != Input ==> Step(dialect, s, '=') == s.(input := s.input + "=", previous := Some('='))
  {
  }

  // ----- Words -----

  /** Text the loop collects as it is: no space, quote, backslash or operator. */
  predicate Unquoted(w: string) {
    w != [] && forall i :: 0 <= i < |w| ==> w[i] !in " \"'<>\\"
  }

  /** Unquoted text the substitution leaves alone as well. */
  predicate Literal(w: string) {
    Unquoted(w) && '$' !in w
  }

  /** Text that cannot start an assignment either. */
  predicate Plain(w: string) {
    Literal(w) && '=' !in w
  }

  /** Outside quotes, text is appended to the current word. */
  lemma {:induction false} ScanText(dialect: Dialect, s: Scan, w: string)
    requires !s.inDoubleQuotes && !s.inSingleQuotes && Unquoted(w)
    requires s.state != Input || '=' !in w
    ensures ScanFrom(dialect, s, w) == s.(input := s.input + w, previous := Some(w[|w| - 1]))
    decreases |w|
  {
    var s1 := s.(input := s.input + [w[0]], previous := Some(w[0]));
    assert Step(dialect, s, w[0]) == s1 by {
      assert w[0] in w;
    }
    ScanStep(dialect, s, w[0], w[1..]);
    assert [w[0]] + w[1..] == w;
    if |w| > 1 {
      assert Unquoted(w[1..]) && (s.state != Input || '=' !in w[1..]) by {
        assert forall i :: 0 <= i < |w[1..]| ==> w[1..][i] == w[i + 1];
      }
      ScanText(dialect, s1, w[1..]);
      assert s1.input + w[1..] == s.input + w;
    } else {
      assert w[1..] == [];
    }
  }

  lemma {:induction false} PadMixedPlain(s: string)
    requires '<' !in s && '>' !in s
    ensures PadMixed(s) == s
    decreases |s|
  {
    if s != [] {
      assert s == [s[0]] + s[1..];
      PadMixedPlain(s[1..]);
    }
  }

  lemma {:induction false} PadMixedPlainPrefix(a: string, b: string)
    requires '<' !in a && '>' !in a
    ensures PadMixed(a + b) == a + PadMixed(b)
    decreases |a|
  {
    if a == [] {
      assert a + b == b;
    } else {
      assert (a + b)[0] == a[0] && (a + b)[1..] == a[1..] + b;
      assert a == [a[0]] + a[1..];
      PadMixedPlainPrefix(a[1..], b);
    }
  }

  lemma ExpandText(w: string, variables: Dict<string>, env: Dict<string>)
    requires '$' !in w
    ensures Expand(w, variables, env, None) == w
  {
    ExpandLiteralPrefix(w, [], variables, env, None);
    assert w + [] == w;
  }

  /** The mode an operator word gives: `>` overwrite, `>>` append, `<` read. */
  function ModeOf(op: string): string {
    if op == ">" then "overwrite" else if op == ">>" then "append" else "read"
  }

  // ----- Whole lines -----

  /** The parsed line read off the final loop variables, when nothing needs substituting. */
  lemma ReadOff(dialect: Dialect, value: string, env: Dict<string>, s: Scan, args: seq<string>)
    requires ScanFrom(dialect, Init, Chars(dialect, value)) == s
    requires s.variables == Empty<string>() && |s.args| == |args|
    requires forall i :: 0 <= i < |args| ==> !s.args[i].inSingleQuotes && s.args[i].value == args[i] && '$' !in args[i]
    ensures BuildSpec(dialect, value, env) == ParsedLine(Empty(), args, s.redirections)
  {
    forall i | 0 <= i < |args| ensures ArgText(s.args[i], Empty(), env) == args[i] {
      ExpandText(args[i], Empty(), env);
    }
  }

  /** An empty line still yields one empty argument, because of the terminating space. */
  lemma EmptyLine(dialect: Dialect, env: Dict<string>)
    ensures BuildSpec(dialect, "", env) == ParsedLine(Empty(), [""], [])
  {
    PadMixedPlain(" ");
    assert "" + " " == " " == [' '] + [];
    assert Chars(dialect, "") == [' '] + [];
    ScanStep(dialect, Init, ' ', []);
    var s := Init.(args := [RawArg("", false)], state := Args, previous := Some(' '));
    assert ScanFrom(dialect, Init, Chars(dialect, "")) == s;
    ReadOff(dialect, "", env, s, [""]);
  }

  /** `NAME=` in INPUT state starts an assignment to NAME. */
  lemma ScanName(dialect: Dialect, s: Scan, name: string)
    requires !s.inDoubleQuotes && !s.inSingleQuotes && s.state == Input && s.input == ""
    requires Plain(name)
    ensures ScanFrom(dialect, s, name + "=") == s.(state := Variable, variableName := name, input := "", previous := Some('='))
  {
    ScanAppend(dialect, s, name, "=");
    ScanText(dialect, s, name);
    assert s.input + name == name;
    var s1 := s.(input := name, previous := Some(name[|name| - 1]));
    assert name[|name| - 1] in name;
    ScanStep(dialect, s1, '=', []);
    assert "=" == ['='] + [];
  }

  /** `VALUE ` in VARIABLE state stores the assignment and goes back to INPUT. */
  lemma ScanValue(dialect: Dialect, s: Scan, val: string)
    requires !s.inDoubleQuotes && !s.inSingleQuotes && s.state == Variable && s.input == ""
    requires Unquoted(val)
    ensures ScanFrom(dialect, s, val + " ") == s.(variables := s.variables.Put(s.variableName, val), input := "", state := Input, previous := Some(' '))
  {
    ScanAppend(dialect, s, val, " ");
    ScanText(dialect, s, val);
    assert s.input + val == val;
    var s1 := s.(input := val, previous := Some(val[|val| - 1]));
    assert val[|val| - 1] in val;
    ScanStep(dialect, s1, ' ', []);
    assert " " == [' '] + [];
  }

  /** `NAME=VALUE ` in INPUT state stores the assignment and goes back to INPUT. */
  lemma ScanAssignment(dialect: Dialect, s: Scan, name: string, val: string)
    requires !s.inDoubleQuotes && !s.inSingleQuotes && s.state == Input && s.input == ""
    requires Plain(name) && Unquoted(val)
    ensures ScanFrom(dialect, s, name + "=" + val + " ")
         == s.(variables := s.variables.Put(name, val), variableName := name, input := "", state := Input, previous := Some(' '))
  {
    assert name + "=" + val + " " == (name + "=") + (val + " ");
    ScanAppend(dialect, s, name + "=", val + " ");
    ScanName(dialect, s, name);
    ScanValue(dialect, s.(state := Variable, variableName := name, input := "", previous := Some('=')), val);
  }

  /** A plain word followed by a space in INPUT or ARGS state is the next argument. */
  lemma ScanArgument(dialect: Dialect, s: Scan, w: string)
    requires !s.inDoubleQuotes && !s.inSingleQuotes && (s.state == Input || s.state == Args) && s.input == ""
    requires Unquoted(w) && (s.state == Args || '=' !in w)
    ensures ScanFrom(dialect, s, w + " ") == s.(args := s.args + [RawArg(w, false)], input := "", state := Args, previous := Some(' '))
  {
    var s1 := s.(input := w, previous := Some(w[|w| - 1]));
    ScanAppend(dialect, s, w, " ");
    ScanText(dialect, s, w);
    assert s.input + w == w;
    assert w[|w| - 1] in w;
    WordEnds(dialect, s1);
    assert [' '] + [] == " ";
    ScanStep(dialect, s1, ' ', []);
  }

  /** A space after a word that ends in ordinary text pushes the word as an argument. */
  lemma WordEnds(dialect: Dialect, s: Scan)
    requires !s.inDoubleQuotes && !s.inSingleQuotes && (s.state == Input || s.state == Args)
    requires s.previous.Some? && s.previous.value !in "<> \\'"
    ensures Step(dialect, s, ' ') == s.(args := s.args + [RawArg(s.input, false)], input := "", state := Args, previous := Some(' '))
  {
  }

  /** The characters of unquoted text. */
  lemma UnquotedChars(w: string)
    requires Unquoted(w)
    ensures '<' !in w && '>' !in w && ' ' !in w && '"' !in w && '\'' !in w && '\\' !in w
    ensures w[|w| - 1] != ' ' && w[|w| - 1] != '<' && w[|w| - 1] != '>' && w[|w| - 1] != '\\'
  {
  }

  /** A line without operators is walked as it is, plus the terminating space. */
  lemma CharsPlain(dialect: Dialect, value: string)
    requires '<' !in value && '>' !in value
    ensures Chars(dialect, value) == value + " "
  {
    PadMixedPlain(value + " ");
  }

  /** The scan of `a + b` from Init, read in two phases through a middle state. */
  lemma ScanTwo(dialect: Dialect, a: string, b: string, mid: Scan, last: Scan)
    requires ScanFrom(dialect, Init, a) == mid && ScanFrom(dialect, mid, b) == last
    ensures ScanFrom(dialect, Init, a + b) == last
  {
    ScanAppend(dialect, Init, a, b);
  }

  /** A single assignment without references resolves to itself. */
  lemma ResolveOne(name: string, val: string, env: Dict<string>)
    requires '$' !in val
    ensures var vars := Empty<string>().Put(name, val); Resolve(vars, vars.keys, env) == vars
  {
    var vars := Empty<string>().Put(name, val);
    assert vars.keys == [name];
    ExpandText(val, Empty(), env);
    assert [name][..0] == [];
  }

  /** The scan of `NAME=VALUE cmd`. */
  lemma ScanAssignmentCommand(dialect: Dialect, name: string, val: string, cmd: string)
    requires Plain(name) && Literal(val) && Plain(cmd)
    ensures ScanFrom(dialect, Init, Chars(dialect, name + "=" + val + " " + cmd))
         == Init.(variables := Empty<string>().Put(name, val), variableName := name, previous := Some(' '), args := [RawArg(cmd, false)], state := Args)
  {
    var value := name + "=" + val + " " + cmd;
    UnquotedChars(name);
    UnquotedChars(val);
    UnquotedChars(cmd);
    CharsPlain(dialect, value);
    var a, b := name + "=" + val + " ", cmd + " ";
    assert value + " " == a + b;
    ScanAssignment(dialect, Init, name, val);
    var s1 := Init.(variables := Empty<string>().Put(name, val), variableName := name, previous := Some(' '));
    ScanArgument(dialect, s1, cmd);
    ScanTwo(dialect, a, b, s1, s1.(args := [RawArg(cmd, false)], state := Args));
  }

  /** `NAME=VALUE cmd`: the assignment is stored, the command is the only argument. */
  lemma AssignmentThenCommand(dialect: Dialect, name: string, val: string, cmd: string, env: Dict<string>)
    requires Plain(name) && Literal(val) && Plain(cmd)
    ensures BuildSpec(dialect, name + "=" + val + " " + cmd, env) == ParsedLine(Empty<string>().Put(name, val), [cmd], [])
  {
    ScanAssignmentCommand(dialect, name, val, cmd);
    ResolveOne(name, val, env);
    ExpandText(cmd, Empty<string>().Put(name, val), env);
  }

  /** `cmd a=b`: after the command `=` is ordinary text of an argument. */
  lemma EqualsInArgument(dialect: Dialect, cmd: string, w: string, env: Dict<string>)
    requires Plain(cmd) && Literal(w)
    ensures BuildSpec(dialect, cmd + " " + w, env) == ParsedLine(Empty(), [cmd, w], [])
  {
    var value := cmd + " " + w;
    UnquotedChars(cmd);
    UnquotedChars(w);
    CharsPlain(dialect, value);
    assert value + " " == (cmd + " ") + (w + " ");
    ScanArgument(dialect, Init, cmd);
    var s1 := Init.(args := [RawArg(cmd, false)], state := Args, previous := Some(' '));
    ScanArgument(dialect, s1, w);
    var s2 := s1.(args := [RawArg(cmd, false), RawArg(w, false)]);
    ScanTwo(dialect, cmd + " ", w + " ", s1, s2);
    ReadOff(dialect, value, env, s2, [cmd, w]);
  }

  /** Inside single quotes everything but a quote is collected as it is. */
  lemma {:induction false} ScanQuoted(dialect: Dialect, s: Scan, t: string)
    requires s.inSingleQuotes && !s.inDoubleQuotes
    requires forall i :: 0 <= i < |t| ==> t[i] != '\'' && t[i] != '"'
    ensures ScanFrom(dialect, s, t) == s.(input := s.input + t, previous := if t == [] then s.previous else Some(t[|t| - 1]))
    decreases |t|
  {
    if t == [] {
      assert s.input + t == s.input;
    } else {
      var s1 := s.(input := s.input + [t[0]], previous := Some(t[0]));
      QuotedLiteral(dialect, s, t[0]);
      ScanStep(dialect, s, t[0], t[1..]);
      assert [t[0]] + t[1..] == t;
      ScanQuoted(dialect, s1, t[1..]);
      assert s1.input + t[1..] == s.input + t;
      if |t| == 1 {
        assert t[1..] == [];
      } else {
        assert t[1..][|t[1..]| - 1] == t[|t| - 1];
      }
    }
  }

  /** `'text' ` after an argument: the quoted text is pushed as a single-quoted argument. */
  lemma ScanQuotedArgument(dialect: Dialect, s: Scan, t: string)
    requires !s.inDoubleQuotes && !s.inSingleQuotes && s.state == Args && s.input == "" && s.previous == Some(' ')
    requires forall i :: 0 <= i < |t| ==> t[i] !in "'\"\\"
    ensures ScanFrom(dialect, s, "'" + t + "' ") == s.(args := s.args + [RawArg(t, true)], previous := Some(' '))
  {
    ScanAppend(dialect, s, "'" + t, "' ");
    ScanOpenQuote(dialect, s, t);
    var s2 := s.(inSingleQuotes := true, input := t, previous := if t == [] then Some('\'') else Some(t[|t| - 1]));
    assert s2.previous != Some('\\') by {
      if t != [] { assert t[|t| - 1] in t; }
    }
    ScanCloseQuote(dialect, s2);
  }

  /** An opening quote and the text after it: the text is collected as it is. */
  lemma ScanOpenQuote(dialect: Dialect, s: Scan, t: string)
    requires !s.inDoubleQuotes && !s.inSingleQuotes && s.input == "" && s.previous == Some(' ')
    requires forall i :: 0 <= i < |t| ==> t[i] !in "'\"\\"
    ensures ScanFrom(dialect, s, "'" + t)
         == s.(inSingleQuotes := true, input := t, previous := if t == [] then Some('\'') else Some(t[|t| - 1]))
  {
    assert "'" + t == ['\''] + t;
    ScanStep(dialect, s, '\'', t);
    var s1 := s.(inSingleQuotes := true, previous := Some('\''));
    assert Step(dialect, s, '\'') == s1;
    ScanQuoted(dialect, s1, t);
    assert s1.input + t == t;
  }

  /** The closing quote and a space push the collected text as a single-quoted argument. */
  lemma ScanCloseQuote(dialect: Dialect, s: Scan)
    requires !s.inDoubleQuotes && s.inSingleQuotes && s.state == Args && s.previous != Some('\\')
    ensures ScanFrom(dialect, s, "' ") == s.(inSingleQuotes := false, args := s.args + [RawArg(s.input, true)], input := "", previous := Some(' '))
  {
    assert "' " == ['\''] + " ";
    ScanStep(dialect, s, '\'', " ");
    var s3 := s.(inSingleQuotes := false, previous := Some('\''));
    assert Step(dialect, s, '\'') == s3;
    assert " " == [' '] + [];
    ScanStep(dialect, s3, ' ', []);
  }

  /** `cmd 'text'`: a single-quoted argument is taken verbatim, without substitution. */
  lemma SingleQuotedArgument(dialect: Dialect, cmd: string, t: string, env: Dict<string>)
    requires Plain(cmd)
    requires forall i :: 0 <= i < |t| ==> t[i] !in "'\"\\<>"
    ensures BuildSpec(dialect, cmd + " '" + t + "'", env) == ParsedLine(Empty(), [cmd, t], [])
  {
    var value := cmd + " '" + t + "'";
    UnquotedChars(cmd);
    assert '<' !in t && '>' !in t by {
      assert forall i :: 0 <= i < |t| ==> t[i] != '<' && t[i] != '>';
    }
    CharsPlain(dialect, value);
    assert value + " " == (cmd + " ") + ("'" + t + "' ");
    ScanArgument(dialect, Init, cmd);
    var s1 := Init.(args := [RawArg(cmd, false)], state := Args, previous := Some(' '));
    ScanQuotedArgument(dialect, s1, t);
    var s2 := s1.(args := [RawArg(cmd, false), RawArg(t, true)]);
    ScanTwo(dialect, cmd + " ", "'" + t + "' ", s1, s2);
    ExpandText(cmd, Empty(), env);
  }

  /** The operators a dialect knows: `>` and `>>`, and `<` in the app version. */
  predicate Operator(dialect: Dialect, op: string) {
    op == ">" || op == ">>" || (dialect == App && op == "<")
  }

  /** An operator and the space after it switch to REDIRECTION with the operator's mode. */
  lemma ScanOperator(dialect: Dialect, s: Scan, op: string)
    requires !s.inDoubleQuotes && !s.inSingleQuotes && s.previous == Some(' ')
    requires Operator(dialect, op)
    ensures ScanFrom(dialect, s, op + " ") == s.(state := Redirecting, mode := ModeOf(op), previous := Some(' '))
  {
    var c := op[0];
    var s1 := s.(state := Redirecting, mode := if c == '<' then "read" else "overwrite", previous := Some(c));
    assert Step(dialect, s, c) == s1;
    assert op + " " == [c] + (op[1..] + " ");
    ScanStep(dialect, s, c, op[1..] + " ");
    if op == ">>" {
      assert op[1..] + " " == ['>'] + [' '];
      var s2 := s1.(mode := "append");
      assert Step(dialect, s1, '>') == s2;
      ScanStep(dialect, s1, '>', [' ']);
      ScanStep(dialect, s2, ' ', []);
    } else {
      assert op[1..] + " " == [' '] + [];
      ScanStep(dialect, s1, ' ', []);
    }
  }

  /** `op target ` after a space records the redirection and returns to INPUT. */
  lemma ScanRedirection(dialect: Dialect, s: Scan, op: string, target: string)
    requires !s.inDoubleQuotes && !s.inSingleQuotes && s.previous == Some(' ') && s.input == ""
    requires Operator(dialect, op) && Unquoted(target)
    ensures ScanFrom(dialect, s, op + " " + target + " ")
         == s.(redirections := s.redirections + [Redirection(ModeOf(op), target)], mode := "append", input := "", state := Input, previous := Some(' '))
  {
    assert op + " " + target + " " == (op + " ") + (target + " ");
    ScanAppend(dialect, s, op + " ", target + " ");
    ScanOperator(dialect, s, op);
    var s1 := s.(state := Redirecting, mode := ModeOf(op), previous := Some(' '));
    ScanAppend(dialect, s1, target, " ");
    ScanText(dialect, s1, target);
    assert s1.input + target == target;
    UnquotedChars(target);
    var s2 := s1.(input := target, previous := Some(target[|target| - 1]));
    TargetEnds(dialect, s2);
    ScanStep(dialect, s2, ' ', []);
    assert " " == [' '] + [];
  }

  /** `cmd op target ` with spaces: one argument and one redirection with the operator's mode. */
  lemma SpacedRedirection(dialect: Dialect, cmd: string, op: string, target: string)
    requires Plain(cmd) && Operator(dialect, op) && Unquoted(target)
    ensures ScanFrom(dialect, Init, cmd + " " + op + " " + target + " ")
         == Init.(args := [RawArg(cmd, false)], redirections := [Redirection(ModeOf(op), target)], previous := Some(' '))
  {
    assert cmd + " " + op + " " + target + " " == (cmd + " ") + (op + " " + target + " ");
    ScanArgument(dialect, Init, cmd);
    var s1 := Init.(args := [RawArg(cmd, false)], state := Args, previous := Some(' '));
    ScanRedirection(dialect, s1, op, target);
    ScanTwo(dialect, cmd + " ", op + " " + target + " ", s1,
      Init.(args := [RawArg(cmd, false)], redirections := [Redirection(ModeOf(op), target)], previous := Some(' ')));
  }

  lemma {:induction false} OperatorRunOf(op: string, tail: string)
    requires forall i :: 0 <= i < |op| ==> op[i] == '<' || op[i] == '>'
    requires tail == [] || (tail[0] != '<' && tail[0] != '>')
    ensures OperatorRun(op + tail) == |op|
    decreases |op|
  {
    if op == [] {
      assert op + tail == tail;
    } else {
      assert (op + tail)[0] == op[0] && (op + tail)[1..] == op[1..] + tail;
      OperatorRunOf(op[1..], tail);
    }
  }

  /** The app version's padding of `cmd`, an operator and `target`. */
  lemma PadOperator(cmd: string, op: string, target: string)
    requires Plain(cmd) && Operator(App, op) && Unquoted(target)
    ensures Chars(App, cmd + op + target) == cmd + " " + op + " " + target + " "
  {
    var tail := target + " ";
    UnquotedChars(cmd);
    UnquotedChars(target);
    assert cmd + op + target + " " == cmd + (op + tail);
    PadMixedPlainPrefix(cmd, op + tail);
    PadOperatorTail(op, target);
    assert cmd + (" " + op + " " + tail) == cmd + " " + op + " " + target + " ";
  }

  /** An operator run followed by plain text is padded on both sides; the text is kept. */
  lemma PadOperatorTail(op: string, target: string)
    requires Operator(App, op) && Unquoted(target)
    ensures PadMixed(op + (target + " ")) == " " + op + " " + (target + " ")
  {
    var tail := target + " ";
    UnquotedChars(target);
    assert tail[0] == target[0] && target[0] in target;
    OperatorRunOf(op, tail);
    assert (op + tail)[..|op|] == op && (op + tail)[|op|..] == tail;
    PadMixedPlain(tail);
  }

  /**
   * The app version pads the operator, so `cmd>target`, `cmd>>target` and
   * `cmd<target` give the command as the only argument and one redirection;
   * the target is not substituted.
   */
  lemma AppRedirection(cmd: string, op: string, target: string, env: Dict<string>)
    requires Plain(cmd) && Operator(App, op) && Unquoted(target)
    ensures BuildSpec(App, cmd + op + target, env) == ParsedLine(Empty(), [cmd], [Redirection(ModeOf(op), target)])
  {
    PadOperator(cmd, op, target);
    SpacedRedirection(App, cmd, op, target);
    ReadOff(App, cmd + op + target, env,
      Init.(args := [RawArg(cmd, false)], redirections := [Redirection(ModeOf(op), target)], previous := Some(' ')), [cmd]);
  }

  /** The shell.js version reads `cmd > target` and `cmd >> target` the same way. */
  lemma LegacyRedirection(cmd: string, op: string, target: string, env: Dict<string>)
    requires Plain(cmd) && Operator(Legacy, op) && Unquoted(target)
    ensures BuildSpec(Legacy, cmd + " " + op + " " + target, env) == ParsedLine(Empty(), [cmd], [Redirection(ModeOf(op), target)])
  {
    SpacedRedirection(Legacy, cmd, op, target);
    assert Chars(Legacy, cmd + " " + op + " " + target) == cmd + " " + op + " " + target + " ";
    ReadOff(Legacy, cmd + " " + op + " " + target, env,
      Init.(args := [RawArg(cmd, false)], redirections := [Redirection(ModeOf(op), target)], previous := Some(' ')), [cmd]);
  }

  /**
   * Without padding, `cmd>target` in the shell.js version collects the
   * command into the target: no argument, and the redirection's target is
   * the command and the target run together.
   */
  lemma LegacyGluedRedirection(cmd: string, target: string, env: Dict<string>)
    requires Plain(cmd) && Unquoted(target)
    ensures BuildSpec(Legacy, cmd + ">" + target, env) == ParsedLine(Empty(), [], [Redirection("overwrite", cmd + target)])
  {
    GluedScan(cmd, target);
    ReadOff(Legacy, cmd + ">" + target, env, Init.(redirections := [Redirection("overwrite", cmd + target)], previous := Some(' ')), []);
  }

  /** The old dialect's scan of `cmd>target`. */
  lemma GluedScan(cmd: string, target: string)
    requires Plain(cmd) && Unquoted(target)
    ensures ScanFrom(Legacy, Init, Chars(Legacy, cmd + ">" + target))
         == Init.(redirections := [Redirection("overwrite", cmd + target)], previous := Some(' '))
  {
    ScanCommand(cmd);
    GluedTarget(cmd, target);
    assert cmd + ">" + target + " " == cmd + (['>'] + (target + " "));
    ScanTwo(Legacy, cmd, ['>'] + (target + " "), Init.(input := cmd, previous := Some(cmd[|cmd| - 1])),
      Init.(redirections := [Redirection("overwrite", cmd + target)], previous := Some(' ')));
  }

  /** A plain word at the start of a line is collected as the current input. */
  lemma ScanCommand(cmd: string)
    requires Plain(cmd)
    ensures ScanFrom(Legacy, Init, cmd) == Init.(input := cmd, previous := Some(cmd[|cmd| - 1]))
  {
    ScanText(Legacy, Init, cmd);
    assert Init.input + cmd == cmd;
  }

  /** In the old dialect, `>` right after a command's text starts a redirection whose target continues that text. */
  lemma GluedTarget(cmd: string, target: string)
    requires Plain(cmd) && Unquoted(target)
    ensures ScanFrom(Legacy, Init.(input := cmd, previous := Some(cmd[|cmd| - 1])), ['>'] + (target + " "))
         == Init.(redirections := [Redirection("overwrite", cmd + target)], previous := Some(' '))
  {
    UnquotedChars(target);
    var s1 := Init.(input := cmd, previous := Some(cmd[|cmd| - 1]));
    ScanStep(Legacy, s1, '>', target + " ");
    var s2 := s1.(state := Redirecting, mode := "overwrite", previous := Some('>'));
    assert Step(Legacy, s1, '>') == s2;
    ScanAppend(Legacy, s2, target, " ");
    ScanText(Legacy, s2, target);
    var s3 := s2.(input := cmd + target, previous := Some(target[|target| - 1]));
    TargetEnds(Legacy, s3);
    ScanStep(Legacy, s3, ' ', []);
    assert " " == [' '] + [];
  }

  /** The scan of `A=x B=$A cmd`. */
  lemma ScanChained(dialect: Dialect, a: string, x: string, b: string, cmd: string)
    requires Plain(a) && Literal(x) && Plain(b) && Plain(cmd)
    ensures ScanFrom(dialect, Init, a + "=" + x + " " + b + "=$" + a + " " + cmd + " ").variables
         == Empty<string>().Put(a, x).Put(b, "$" + a)
  {
    var ref := "$" + a;
    assert Unquoted(ref) by {
      assert forall i :: 1 <= i < |ref| ==> ref[i] == a[i - 1];
    }
    var p1, p2, p3 := a + "=" + x + " ", b + "=" + ref + " ", cmd + " ";
    assert a + "=" + x + " " + b + "=$" + a + " " + cmd + " " == p1 + (p2 + p3);
    ScanAssignment(dialect, Init, a, x);
    var s1 := Init.(variables := Empty<string>().Put(a, x), variableName := a, previous := Some(' '));
    ScanAppend(dialect, s1, p2, p3);
    ScanAssignment(dialect, s1, b, ref);
    var s2 := s1.(variables := s1.variables.Put(b, ref), variableName := b);
    ScanArgument(dialect, s2, cmd);
    ScanTwo(dialect, p1, p2 + p3, s1, ScanFrom(dialect, s2, p3));
  }

  /** The resolution of `{a: x, b: $a}`: b sees the value of a. */
  lemma ResolveChained(a: string, x: string, b: string, env: Dict<string>)
    requires '$' !in x && a != b && a != [] && a[0] != '{'
    requires forall i :: 0 <= i < |a| ==> !IsWhitespace(a[i])
    ensures var vars := Empty<string>().Put(a, x).Put(b, "$" + a);
      Resolve(vars, vars.keys, env) == Empty<string>().Put(a, x).Put(b, x)
  {
    var vars1 := Empty<string>().Put(a, x);
    var vars := vars1.Put(b, "$" + a);
    assert vars.keys == [a, b] && vars.vals[a] == x && vars.vals[b] == "$" + a;
    assert Lookup(a, vars1, env, None) == Some(x);
    ResolveTwo(vars, a, x, b, env, vars1);
  }

  /** The two-key resolution of ResolveChained, with the dictionary facts given. */
  lemma ResolveTwo(vars: Dict<string>, a: string, x: string, b: string, env: Dict<string>, first: Dict<string>)
    requires '$' !in x && a != [] && a[0] != '{' && forall i :: 0 <= i < |a| ==> !IsWhitespace(a[i])
    requires vars.keys == [a, b] && a in vars.vals && b in vars.vals && vars.vals[a] == x && vars.vals[b] == "$" + a
    requires first == Empty<string>().Put(a, x) && Lookup(a, first, env, None) == Some(x)
    ensures Resolve(vars, vars.keys, env) == first.Put(b, x)
  {
    var keys := vars.keys;
    assert keys[0] == a && keys[1] == b;
    ExpandText(x, Empty(), env);
    assert keys[..0] == [];
    ResolveStep(vars, keys, 0, env, Empty(), x);
    assert Resolve(vars, keys[..1], env) == first;
    ExpandReference(a, x, first, env);
    assert Expand(vars.vals[keys[1]], first, env, None) == x;
    ResolveStep(vars, keys, 1, env, first, x);
    assert keys[..2] == keys;
  }

  /** `$a` alone, with `a` set to `x`, expands to `x`. */
  lemma ExpandReference(a: string, x: string, local: Dict<string>, env: Dict<string>)
    requires a != [] && a[0] != '{' && forall i :: 0 <= i < |a| ==> !IsWhitespace(a[i])
    requires Lookup(a, local, env, None) == Some(x)
    ensures Expand("$" + a, local, env, None) == x
  {
    GreedyName(a, [], local, env, None);
    assert "$" + a + [] == "$" + a;
    assert x + Expand([], local, env, None) == x;
  }

  /**
   * `A=x B=$A cmd`: the assignments are resolved in order, each seeing the
   * ones before it, so B is x as well.
   */
  lemma ChainedAssignment(dialect: Dialect, a: string, x: string, b: string, cmd: string, env: Dict<string>)
    requires Plain(a) && Literal(x) && Plain(b) && Plain(cmd) && a != b
    requires a[0] != '{' && forall i :: 0 <= i < |a| ==> !IsWhitespace(a[i])
    ensures BuildSpec(dialect, a + "=" + x + " " + b + "=$" + a + " " + cmd, env).variables
         == Empty<string>().Put(a, x).Put(b, x)
  {
    var value := a + "=" + x + " " + b + "=$" + a + " " + cmd;
    UnquotedChars(a);
    UnquotedChars(b);
    UnquotedChars(x);
    UnquotedChars(cmd);
    CharsPlain(dialect, value);
    ScanChained(dialect, a, x, b, cmd);
    var vars := Empty<string>().Put(a, x).Put(b, "$" + a);
    assert vars.Valid();
    ResolveChained(a, x, b, env);
  }
}
