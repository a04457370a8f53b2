/**
 * `Line.build` of cmsh (cmsh/classes/Line.js): the input is padded around runs
 * of `>` or `<`, fed character by character to a three-state tokenizer running
 * on the StateMachine driver, flushed with a final space, and the resulting
 * tokens are classified into assignments, arguments and redirections.
 */
module Line {
  import opened Wrappers
  import opened Dict
  import opened Text
  import opened Env
  import opened Machine
  import opened Parsed

  /** The tokenizer's handlers: `argument`, `inSingleQuotes`, `inDoubleQuotes`. */
  datatype Mode = Argument | InSingleQuotes | InDoubleQuotes

  /** One `{inSingleQuotes, value}` piece of a token. */
  datatype Segment = Segment(inSingleQuotes: bool, value: string)

  /** A token is the list of its segments. */
  type Token = seq<Segment>

  /** The `argument` state's object `{chars, values, escaped}`. */
  datatype ArgState = ArgState(chars: string, values: seq<Segment>, escaped: bool)

  /**
   * The data the tokenizer carries. In the quote states `arg` is the parent
   * argument state and `quoteChars`/`quoteEscaped` are the quote state's own
   * `chars`/`escaped`. `tokens` is the list the `argument` handler pushes to.
   */
  datatype TokData = TokData(arg: ArgState, quoteChars: string, quoteEscaped: bool, tokens: seq<Token>)

  /** `['argument', { chars: [], values: [] }]`, with no token emitted yet. */
  const Initial := TokData(ArgState([], [], false), [], false, [])

  /** `values.filter(v => v.value !== '')` */
  function NonEmpty(values: seq<Segment>): (r: seq<Segment>)
    ensures |r| <= |values|
    ensures forall s :: s in r <==> s in values && s.value != []
  {
    if values == [] then []
    else (if values[0].value != [] then [values[0]] else []) + NonEmpty(values[1..])
  }

  /** The `argument` handler. */
  function ArgumentStep(c: char, d: TokData): Transition<Mode, TokData> {
    var a := d.arg;
    if c == '\\' then
      WithData(Argument, d.(arg := a.(escaped := true)))
    else if !a.escaped && (c == '"' || c == '\'') then
      var parent := ArgState([], a.values + [Segment(false, a.chars)], a.escaped);
      WithData(if c == '"' then InDoubleQuotes else InSingleQuotes, d.(arg := parent, quoteChars := [], quoteEscaped := false))
    else if !a.escaped && c == ' ' then
      var values := NonEmpty(a.values + [Segment(false, a.chars)]);
      WithData(Argument, d.(arg := a.(chars := [], values := []), tokens := if values != [] then d.tokens + [values] else d.tokens))
    else
      var chars := if a.escaped then a.chars + ['\\'] else a.chars;
      WithData(Argument, d.(arg := ArgState(chars + [c], a.values, false)))
  }

  /** The `inSingleQuotes` (single) and `inDoubleQuotes` handlers. */
  function QuoteStep(single: bool, c: char, d: TokData): Transition<Mode, TokData> {
    var mode := if single then InSingleQuotes else InDoubleQuotes;
    var quote := if single then '\'' else '"';
    if c == '\\' then
      WithData(mode, d.(quoteEscaped := true))
    else if !d.quoteEscaped && c == quote then
      WithData(Argument, d.(arg := d.arg.(values := d.arg.values + [Segment(single, d.quoteChars)])))
    else
      WithData(mode, d.(quoteChars := d.quoteChars + [c], quoteEscaped := false))
  }

  function Tokenizer(mode: Mode, c: char, d: TokData): Transition<Mode, TokData> {
    match mode
    case Argument => ArgumentStep(c, d)
    case InSingleQuotes => QuoteStep(true, c, d)
    case InDoubleQuotes => QuoteStep(false, c, d)
  }

  /** The tokenizer's mode and data after the characters s. */
  function Feed(mode: Mode, d: TokData, s: string): (Mode, TokData) {
    Run(Tokenizer, Initial, mode, d, s)
  }

  predicate IsOperator(c: char) {
    c == '>' || c == '<'
  }

  /** The number of leading copies of c in s. */
  function RunLength(s: string, c: char): (n: nat)
    ensures n <= |s|
    ensures forall i :: 0 <= i < n ==> s[i] == c
    ensures n < |s| ==> s[n] != c
  {
    if s == [] || s[0] != c then 0 else 1 + RunLength(s[1..], c)
  }

  /** `value.replace(/(>+|<+)/g, ' $1 ')` */
  function Pad(s: string): string
    decreases |s|
  {
    if s == [] then []
    else if IsOperator(s[0]) then
      var n := RunLength(s, s[0]);
      " " + s[..n] + " " + Pad(s[n..])
    else [s[0]] + Pad(s[1..])
  }

  /** The tokens: the padded input followed by one flushing space. */
  function Tokenize(value: string): seq<Token> {
    Feed(Argument, Initial, Pad(value) + " ").1.tokens
  }

  /** The locals of the classification loop. */
  datatype Classifier = Classifier(variables: Dict<string>, args: seq<string>, redirections: seq<Redirection>,
                                   beforeCmd: bool, isTarget: bool, mode: string)

  const Start := Classifier(Empty(), [], [], true, false, "")

  /** A single-quoted segment as it is, any other one substituted. */
  function SegmentText(seg: Segment, variables: Dict<string>, env: Dict<string>, draw: Option<nat>): string {
    if seg.inSingleQuotes then seg.value else Expand(seg.value, variables, env, draw)
  }

  /** The segments' texts joined. */
  function TokenText(token: Token, variables: Dict<string>, env: Dict<string>, draw: Option<nat>): string {
    if token == [] then []
    else SegmentText(token[0], variables, env, draw) + TokenText(token[1..], variables, env, draw)
  }

  predicate IsOperatorWord(s: string) {
    s == ">" || s == ">>" || s == "<<" || s == "<"
  }

  predicate IsAssignment(c: Classifier, token: Token)
    requires token != []
  {
    c.beforeCmd && '=' in token[0].value && !token[0].inSingleQuotes
  }

  predicate IsRedirection(token: Token)
    requires token != []
  {
    !token[0].inSingleQuotes && IsOperatorWord(token[0].value)
  }

  /** One round of the `forEach` over the tokens. */
  function Classify(c: Classifier, token: Token, env: Dict<string>, draw: Option<nat>): Classifier
    requires token != []
  {
    var str := TokenText(token, c.variables, env, draw);
    if IsAssignment(c, token) then c.(variables := c.variables.Put(Before(str, '='), After(str, '=')))
    else if IsRedirection(token) then c.(mode := str, isTarget := true)
    else if c.isTarget then c.(isTarget := false, redirections := c.redirections + [Redirection(c.mode, str)])
    else c.(beforeCmd := false, args := c.args + [str])
  }

  predicate NoEmptyToken(tokens: seq<Token>) {
    forall i :: 0 <= i < |tokens| ==> tokens[i] != []
  }

  /** The classification loop over all tokens. */
  function ClassifyAll(tokens: seq<Token>, env: Dict<string>, draw: Option<nat>): Classifier
    requires NoEmptyToken(tokens)
  {
    if tokens == [] then Start
    else Classify(ClassifyAll(tokens[..|tokens| - 1], env, draw), tokens[|tokens| - 1], env, draw)
  }

  /** Every token the tokenizer emits has segments, none of them empty. */
  ghost predicate WellFormed(d: TokData) {
    forall i :: 0 <= i < |d.tokens| ==> d.tokens[i] != [] && forall s :: s in d.tokens[i] ==> s.value != []
  }

  lemma StepWellFormed(mode: Mode, c: char, d: TokData)
    requires WellFormed(d)
    ensures WellFormed(Carried(Tokenizer(mode, c, d), Initial))
  {
  }

  lemma {:induction false} FeedWellFormed(mode: Mode, d: TokData, s: string)
    requires WellFormed(d)
    ensures WellFormed(Feed(mode, d, s).1)
    decreases |s|
  {
    if s != [] {
      var r := Tokenizer(mode, s[0], d);
      StepWellFormed(mode, s[0], d);
      FeedWellFormed(r.name, Carried(r, Initial), s[1..]);
    }
  }

  /** Tokens are non-empty lists of non-empty segments. */
  lemma TokenizeWellFormed(value: string)
    ensures NoEmptyToken(Tokenize(value))
    ensures forall i, s :: 0 <= i < |Tokenize(value)| && s in Tokenize(value)[i] ==> s.value != []
  {
    FeedWellFormed(Argument, Initial, Pad(value) + " ");
  }

  /** The parsed line of `value` under the environment's values and RANDOM draw. */
  function BuildSpec(value: string, env: Dict<string>, draw: Option<nat>): ParsedLine {
    TokenizeWellFormed(value);
    var c := ClassifyAll(Tokenize(value), env, draw);
    ParsedLine(c.variables, c.args, c.redirections)
  }

  /** The text of an operator token: it starts with `<` or `>`. */
  predicate OperatorMode(mode: string) {
    mode != [] && (mode[0] == '<' || mode[0] == '>')
  }

  /** While classifying, a pending mode and every recorded mode is the text of an operator token. */
  lemma {:induction false} ClassifyModes(tokens: seq<Token>, env: Dict<string>, draw: Option<nat>)
    requires NoEmptyToken(tokens)
    ensures var c := ClassifyAll(tokens, env, draw);
      (c.isTarget ==> OperatorMode(c.mode))
      && forall i :: 0 <= i < |c.redirections| ==> OperatorMode(c.redirections[i].mode)
    decreases |tokens|
  {
    if tokens != [] {
      var front := tokens[..|tokens| - 1];
      assert NoEmptyToken(front) by {
        forall i | 0 <= i < |front| ensures front[i] != [] {
          assert front[i] == tokens[i];
        }
      }
      ClassifyModes(front, env, draw);
      var c := ClassifyAll(front, env, draw);
      var token := tokens[|tokens| - 1];
      if !IsAssignment(c, token) && IsRedirection(token) {
        var v := token[0].value;
        assert v[0] == '<' || v[0] == '>';
        assert SegmentText(token[0], c.variables, env, draw)[0] == v[0];
      }
    }
  }

  /**
   * Every redirection of a built line has an operator (`>`, `>>`, `<`, `<<`)
   * for its mode, and never `'read'`.
   */
  lemma RedirectionModes(value: string, env: Dict<string>, draw: Option<nat>)
    ensures forall r :: r in BuildSpec(value, env, draw).redirections ==> OperatorMode(r.mode) && r.mode != "read"
  {
    TokenizeWellFormed(value);
    ClassifyModes(Tokenize(value), env, draw);
  }

  /** `Line.build(value, environment)`, with `draw` the number RANDOM yields. */
  method Build(value: string, environment: Environment, draw: nat) returns (line: ParsedLine)
    ensures line == BuildSpec(value, environment.values, if environment.randomKey then Some(draw) else None)
  {
    var drawn := if environment.randomKey then Some(draw) else None;
    var tokens := RunTokenizer(value);
    TokenizeWellFormed(value);
    line := ClassifyTokens(tokens, environment.values, drawn);
  }

  /** The tokenizer state machine fed the padded line and one flushing space. */
  method RunTokenizer(value: string) returns (tokens: seq<Token>)
    ensures tokens == Tokenize(value)
  {
    var tokenizer := new StateMachine(Tokenizer, WithData(Argument, Initial), Initial);
    var chars := Pad(value) + " ";
    var i := 0;
    while i < |chars| - 1
      invariant 0 <= i <= |chars| - 1
      invariant tokenizer.handlers == Tokenizer && tokenizer.empty == Initial
      invariant (tokenizer.state, tokenizer.data) == Feed(Argument, Initial, chars[..i])
    {
      FeedSnoc(chars, i);
      tokenizer.Next(chars[i]);
      i := i + 1;
    }
    FeedSnoc(chars, i);
    assert chars[..i + 1] == chars;
    tokenizer.Next(' ');
    tokens := tokenizer.data.tokens;
  }

  lemma FeedSnoc(s: string, i: nat)
    requires i < |s|
    ensures var (m, d) := Feed(Argument, Initial, s[..i]);
      var r := Tokenizer(m, s[i], d);
      Feed(Argument, Initial, s[..i + 1]) == (r.name, Carried(r, Initial))
  {
    RunSnoc(Tokenizer, Initial, Argument, Initial, s[..i], s[i]);
    assert s[..i + 1] == s[..i] + [s[i]];
  }

  /** The `forEach` over the tokens that sorts them into variables, arguments and redirections. */
  method ClassifyTokens(tokens: seq<Token>, env: Dict<string>, drawn: Option<nat>) returns (line: ParsedLine)
    requires NoEmptyToken(tokens)
    ensures var c := ClassifyAll(tokens, env, drawn); line == ParsedLine(c.variables, c.args, c.redirections)
  {
    var variables := Empty<string>();
    var args: seq<string> := [];
    var redirections: seq<Redirection> := [];
    var beforeCmd := true;
    var isTarget := false;
    var mode := "";
    var j := 0;
    while j < |tokens|
      invariant 0 <= j <= |tokens|
      invariant Classifier(variables, args, redirections, beforeCmd, isTarget, mode) == ClassifyAll(tokens[..j], env, drawn)
    {
      var token := tokens[j];
      ClassifyStep(tokens, j, env, drawn);
      var isVariable := beforeCmd && '=' in token[0].value && !token[0].inSingleQuotes;
      var isRedirection := !token[0].inSingleQuotes && IsOperatorWord(token[0].value);
      var str := TokenText(token, variables, env, drawn);
      if isVariable {
        variables := variables.Put(Before(str, '='), After(str, '='));
      } else if isRedirection {
        mode := str;
        isTarget := true;
      } else if isTarget {
        isTarget := false;
        redirections := redirections + [Redirection(mode, str)];
      } else {
        beforeCmd := false;
        args := args + [str];
      }
      j := j + 1;
    }
    assert tokens[..j] == tokens;
    line := ParsedLine(variables, args, redirections);
  }

  lemma ClassifyStep(tokens: seq<Token>, j: nat, env: Dict<string>, draw: Option<nat>)
    requires j < |tokens| && NoEmptyToken(tokens)
    ensures NoEmptyToken(tokens[..j]) && NoEmptyToken(tokens[..j + 1])
    ensures ClassifyAll(tokens[..j + 1], env, draw) == Classify(ClassifyAll(tokens[..j], env, draw), tokens[j], env, draw)
  {
    assert tokens[..j + 1][..j] == tokens[..j];
  }

  // ----- Padding -----

  /** The operators of the padded line stand between spaces or copies of themselves. */
  ghost predicate Separated(p: string) {
    forall i :: 0 <= i < |p| && IsOperator(p[i]) ==>
      0 < i && (p[i - 1] == ' ' || p[i - 1] == p[i]) && i + 1 < |p| && (p[i + 1] == ' ' || p[i + 1] == p[i])
  }

  lemma SeparatedAppend(x: string, y: string)
    requires Separated(x) && Separated(y)
    requires x == [] || !IsOperator(x[|x| - 1])
    requires y == [] || !IsOperator(y[0])
    ensures Separated(x + y)
  {
    var p := x + y;
    forall i | 0 <= i < |p| && IsOperator(p[i])
      ensures 0 < i && (p[i - 1] == ' ' || p[i - 1] == p[i]) && i + 1 < |p| && (p[i + 1] == ' ' || p[i + 1] == p[i])
    {
      if i < |x| {
        assert x[i] == p[i];
      } else {
        assert y[i - |x|] == p[i];
      }
    }
  }

  /** The padded line never starts with an operator. */
  lemma PadStart(s: string)
    ensures Pad(s) == [] || !IsOperator(Pad(s)[0])
  {
  }

  /**
   * Padding puts a space on each side of every maximal run of `>` or of `<`,
   * so each run reaches the tokenizer as a word of its own.
   */
  lemma {:induction false} PadSeparated(s: string)
    ensures Separated(Pad(s))
    decreases |s|
  {
    if s != [] {
      PadSeparated(if IsOperator(s[0]) then s[RunLength(s, s[0])..] else s[1..]);
      if IsOperator(s[0]) {
        var n := RunLength(s, s[0]);
        var block := " " + s[..n] + " ";
        assert forall i :: 0 < i < |block| - 1 ==> block[i] == s[0];
        PadStart(s[n..]);
        SeparatedAppend(block, Pad(s[n..]));
      } else {
        PadStart(s[1..]);
        SeparatedAppend([s[0]], Pad(s[1..]));
      }
    }
  }

  /** Without operators, padding changes nothing. */
  lemma {:induction false} PadPlain(s: string)
    requires forall i :: 0 <= i < |s| ==> !IsOperator(s[i])
    ensures Pad(s) == s
    decreases |s|
  {
    if s != [] {
      PadPlain(s[1..]);
    }
  }

  /** Padding only adds spaces. */
  lemma {:induction false} PadChars(s: string, c: char)
    requires c != ' ' && c !in s
    ensures c !in Pad(s)
    decreases |s|
  {
    if s != [] {
      var n := if IsOperator(s[0]) then RunLength(s, s[0]) else 1;
      assert c !in s[..n] && c !in s[n..] by { assert s == s[..n] + s[n..]; }
      PadChars(s[n..], c);
    }
  }

  lemma {:induction false} RunLengthAppend(a: string, b: string, c: char)
    requires RunLength(a, c) < |a| || b == [] || b[0] != c
    ensures RunLength(a + b, c) == RunLength(a, c)
    decreases |a|
  {
    if a == [] {
    } else {
      assert (a + b)[0] == a[0] && (a + b)[1..] == a[1..] + b;
      if a[0] == c {
        RunLengthAppend(a[1..], b, c);
      }
    }
  }

  /** An operator run at the head of `a` is padded alike in `a + b`, when `b` does not continue it. */
  lemma PadOperatorRun(a: string, b: string)
    requires a != [] && IsOperator(a[0]) && (b == [] || !IsOperator(b[0]))
    ensures var n := RunLength(a, a[0]);
      && 0 < n && Pad(a + b) == " " + a[..n] + " " + Pad(a[n..] + b)
      && Pad(a) == " " + a[..n] + " " + Pad(a[n..])
  {
    var n := RunLength(a, a[0]);
    assert n == 1 + RunLength(a[1..], a[0]);
    assert (a + b)[0] == a[0];
    RunLengthAppend(a, b, a[0]);
    PadHead(a);
    PadHead(a + b);
    SliceAppend(a, b, n);
  }

  lemma SliceAppend(a: string, b: string, n: nat)
    requires n <= |a|
    ensures (a + b)[..n] == a[..n] && (a + b)[n..] == a[n..] + b
  {
  }

  /** Padding a string that starts with an operator pads its leading run. */
  lemma PadHead(s: string)
    requires s != [] && IsOperator(s[0])
    ensures Pad(s) == " " + s[..RunLength(s, s[0])] + " " + Pad(s[RunLength(s, s[0])..])
  {
  }

  /** Padding a concatenation pads the parts when no operator run straddles the seam. */
  lemma {:induction false} PadAppend(a: string, b: string)
    requires b == [] || !IsOperator(b[0])
    ensures Pad(a + b) == Pad(a) + Pad(b)
    decreases |a|
  {
    if a == [] {
      assert a + b == b;
    } else if IsOperator(a[0]) {
      var n := RunLength(a, a[0]);
      PadOperatorRun(a, b);
      PadAppend(a[n..], b);
      AppendAssoc(" " + a[..n] + " ", Pad(a[n..]), Pad(b));
    } else {
      PadPlainHead(a, b);
      PadAppend(a[1..], b);
      AppendAssoc([a[0]], Pad(a[1..]), Pad(b));
    }
  }

  lemma AppendAssoc(x: string, y: string, z: string)
    ensures (x + y) + z == x + (y + z)
  {
  }

  /** A character that is not an operator is kept as it is, in `a + b` as in `a`. */
  lemma PadPlainHead(a: string, b: string)
    requires a != [] && !IsOperator(a[0])
    ensures Pad(a + b) == [a[0]] + Pad(a[1..] + b) && Pad(a) == [a[0]] + Pad(a[1..])
  {
    assert (a + b)[0] == a[0] && (a + b)[1..] == a[1..] + b;
  }

  // ----- Tokenizer -----

  /** Feeding a character runs its handler once, then the rest from the new state. */
  lemma FeedStep(mode: Mode, d: TokData, c: char, rest: string)
    ensures var r := Tokenizer(mode, c, d);
      Feed(mode, d, [c] + rest) == Feed(r.name, Carried(r, Initial), rest)
  {
    assert ([c] + rest)[0] == c && ([c] + rest)[1..] == rest;
  }

  /** Only an unescaped space in the `argument` state pushes a token, and it pushes at most one. */
  lemma OnlyArgumentEmits(mode: Mode, c: char, d: TokData)
    ensures var d' := Carried(Tokenizer(mode, c, d), Initial);
      d'.tokens == d.tokens || (mode == Argument && c == ' ' && !d.arg.escaped && |d'.tokens| == |d.tokens| + 1 && d'.tokens[..|d.tokens|] == d.tokens)
  {
  }

  /** Ordinary characters in the `argument` state accumulate in `chars`. */
  lemma {:induction false} FeedWord(d: TokData, w: string)
    requires !d.arg.escaped
    requires forall i :: 0 <= i < |w| ==> w[i] !in " \"'\\"
    ensures Feed(Argument, d, w) == (Argument, d.(arg := d.arg.(chars := d.arg.chars + w)))
    decreases |w|
  {
    if w == [] {
      assert d.arg.chars + w == d.arg.chars;
    } else {
      var d1 := d.(arg := d.arg.(chars := d.arg.chars + [w[0]]));
      assert Tokenizer(Argument, w[0], d) == WithData(Argument, d1);
      FeedWord(d1, w[1..]);
      assert d1.arg.chars + w[1..] == d.arg.chars + w;
    }
  }

  /** A word of ordinary characters followed by a space becomes one unquoted token. */
  lemma FeedToken(d: TokData, w: string)
    requires d.arg == ArgState([], [], false)
    requires w != [] && forall i :: 0 <= i < |w| ==> w[i] !in " \"'\\"
    ensures Feed(Argument, d, w + " ") == (Argument, d.(tokens := d.tokens + [[Segment(false, w)]]))
  {
    FeedWord(d, w);
    RunAppend(Tokenizer, Initial, Argument, d, w, " ");
    var d1 := d.(arg := d.arg.(chars := w));
    assert d.arg.chars + w == w;
    assert NonEmpty([Segment(false, w)]) == [Segment(false, w)];
    FeedStep(Argument, d1, ' ', []);
    assert [' '] + [] == " ";
  }

  /**
   * Inside quotes nothing is emitted and, short of the closing quote, the
   * state is never left: the parent argument state and the tokens stay as
   * they are.
   */
  lemma {:induction false} FeedInQuote(single: bool, d: TokData, t: string)
    requires (if single then '\'' else '"') !in t
    ensures var (m, d') := Feed(if single then InSingleQuotes else InDoubleQuotes, d, t);
      m == (if single then InSingleQuotes else InDoubleQuotes) && d'.arg == d.arg && d'.tokens == d.tokens
    decreases |t|
  {
    if t != [] {
      var mode := if single then InSingleQuotes else InDoubleQuotes;
      var r := Tokenizer(mode, t[0], d);
      assert t[0] in t;
      assert r.name == mode;
      assert (if single then '\'' else '"') !in t[1..] by { assert t == [t[0]] + t[1..]; }
      FeedInQuote(single, Carried(r, Initial), t[1..]);
    }
  }

  /** Text that is plain inside quotes is collected as it is. */
  lemma {:induction false} FeedQuotedText(single: bool, d: TokData, t: string)
    requires !d.quoteEscaped
    requires (if single then '\'' else '"') !in t && '\\' !in t
    ensures Feed(if single then InSingleQuotes else InDoubleQuotes, d, t)
         == (if single then InSingleQuotes else InDoubleQuotes, d.(quoteChars := d.quoteChars + t))
    decreases |t|
  {
    var mode := if single then InSingleQuotes else InDoubleQuotes;
    if t == [] {
      assert d.quoteChars + t == d.quoteChars;
    } else {
      var d1 := d.(quoteChars := d.quoteChars + [t[0]]);
      assert t[0] in t;
      assert Tokenizer(mode, t[0], d) == WithData(mode, d1);
      assert (if single then '\'' else '"') !in t[1..] && '\\' !in t[1..] by { assert t == [t[0]] + t[1..]; }
      FeedQuotedText(single, d1, t[1..]);
      assert d1.quoteChars + t[1..] == d.quoteChars + t;
    }
  }

  /** Unquoted, a backslash stays in front of the character it escapes, even a space or a quote. */
  lemma EscapeInArgument(d: TokData, c: char)
    requires c != '\\'
    ensures Feed(Argument, d, ['\\', c]) == (Argument, d.(arg := ArgState(d.arg.chars + ['\\', c], d.arg.values, false)))
  {
    var d1 := d.(arg := d.arg.(escaped := true));
    assert Tokenizer(Argument, '\\', d) == WithData(Argument, d1);
    FeedStep(Argument, d, '\\', [c]);
    FeedStep(Argument, d1, c, []);
    assert ['\\'] + [c] == ['\\', c] && [c] + [] == [c];
    assert d.arg.chars + ['\\'] + [c] == d.arg.chars + ['\\', c];
  }

  /** Quoted, the backslash is dropped and the next character, even the closing quote, is taken literally. */
  lemma EscapeInQuotes(single: bool, d: TokData, c: char)
    requires c != '\\'
    ensures var mode := if single then InSingleQuotes else InDoubleQuotes;
      Feed(mode, d, ['\\', c]) == (mode, d.(quoteChars := d.quoteChars + [c], quoteEscaped := false))
  {
    var mode := if single then InSingleQuotes else InDoubleQuotes;
    assert Tokenizer(mode, '\\', d) == WithData(mode, d.(quoteEscaped := true));
    FeedStep(mode, d, '\\', [c]);
    FeedStep(mode, d.(quoteEscaped := true), c, []);
    assert ['\\'] + [c] == ['\\', c] && [c] + [] == [c];
  }

  /** A space in the `argument` state with nothing collected emits nothing. */
  lemma {:induction false} FeedSpaces(s: string)
    requires forall i :: 0 <= i < |s| ==> s[i] == ' '
    ensures Feed(Argument, Initial, s) == (Argument, Initial)
    decreases |s|
  {
    if s != [] {
      assert NonEmpty([Segment(false, [])]) == [];
      assert Tokenizer(Argument, ' ', Initial) == WithData(Argument, Initial);
      FeedSpaces(s[1..]);
    }
  }

  /**
   * The text after an unterminated quote is never emitted: the tokens are those
   * completed before the quote opened.
   */
  lemma UnterminatedQuote(v: string, q: char, t: string)
    requires q == '"' || q == '\''
    requires Feed(Argument, Initial, Pad(v)).0 == Argument && !Feed(Argument, Initial, Pad(v)).1.arg.escaped
    requires q !in t
    ensures Tokenize(v + [q] + t) == Feed(Argument, Initial, Pad(v)).1.tokens
  {
    var d := Feed(Argument, Initial, Pad(v)).1;
    var rest := Pad(t) + " ";
    PadQuote(v, q, t);
    RunAppend(Tokenizer, Initial, Argument, Initial, Pad(v), [q] + rest);
    var single := q == '\'';
    var d1 := d.(arg := ArgState([], d.arg.values + [Segment(false, d.arg.chars)], false), quoteChars := [], quoteEscaped := false);
    assert Tokenizer(Argument, q, d) == WithData(if single then InSingleQuotes else InDoubleQuotes, d1);
    assert ([q] + rest)[1..] == rest;
    FeedInQuote(single, d1, rest);
  }

  /** Padding leaves a quote and the text after it alone when that text has no such quote. */
  lemma PadQuote(v: string, q: char, t: string)
    requires q == '"' || q == '\''
    requires q !in t
    ensures Pad(v + [q] + t) + " " == Pad(v) + ([q] + (Pad(t) + " ")) && q !in Pad(t) + " "
  {
    PadAppend([q] + t, []);
    PadAppend(v, [q] + t);
    assert ([q] + t)[0] == q && ([q] + t)[1..] == t;
    assert Pad([q] + t) == [q] + Pad(t);
    assert v + [q] + t == v + ([q] + t);
    PadChars(t, q);
  }

  /** An empty or all-space line has no token. */
  lemma BlankLineTokens(value: string)
    requires forall i :: 0 <= i < |value| ==> value[i] == ' '
    ensures Tokenize(value) == []
  {
    PadPlain(value);
    FeedSpaces(value + " ");
  }

  // ----- Classification -----

  /** Assignments, arguments and redirections only grow, and once the command is seen the assignments are final. */
  lemma {:induction false} ClassifyGrows(ts: seq<Token>, us: seq<Token>, env: Dict<string>, draw: Option<nat>)
    requires NoEmptyToken(ts) && NoEmptyToken(us)
    ensures NoEmptyToken(ts + us)
    ensures var c, c' := ClassifyAll(ts, env, draw), ClassifyAll(ts + us, env, draw);
      c.args <= c'.args && c.redirections <= c'.redirections && (c'.beforeCmd ==> c.beforeCmd)
      && (!c.beforeCmd ==> !c'.beforeCmd && c'.variables == c.variables)
    decreases |us|
  {
    NoEmptyConcat(ts, us);
    if us == [] {
      assert ts + us == ts;
    } else {
      var us0 := us[..|us| - 1];
      assert (ts + us)[..|ts + us| - 1] == ts + us0;
      assert (ts + us)[|ts + us| - 1] == us[|us| - 1];
      ClassifyGrows(ts, us0, env, draw);
      var c0 := ClassifyAll(ts + us0, env, draw);
      assert ClassifyAll(ts + us, env, draw) == Classify(c0, us[|us| - 1], env, draw);
      ClassifyOne(c0, us[|us| - 1], env, draw);
    }
  }

  lemma NoEmptyConcat(ts: seq<Token>, us: seq<Token>)
    requires NoEmptyToken(ts) && NoEmptyToken(us)
    ensures NoEmptyToken(ts + us)
  {
    forall i | 0 <= i < |ts + us| ensures (ts + us)[i] != [] {
      if i < |ts| { assert (ts + us)[i] == ts[i]; } else { assert (ts + us)[i] == us[i - |ts|]; }
    }
  }

  /** One token classified: the same growth, in one step. */
  lemma ClassifyOne(c: Classifier, token: Token, env: Dict<string>, draw: Option<nat>)
    requires token != []
    ensures var c' := Classify(c, token, env, draw);
      c.args <= c'.args && c.redirections <= c'.redirections && (c'.beforeCmd ==> c.beforeCmd)
      && (!c.beforeCmd ==> !c'.beforeCmd && c'.variables == c.variables)
  {
  }

  /**
   * An assignment stores the text before the first `=` as the name and the
   * rest, `=` signs included, as the value.
   */
  lemma AssignmentSplit(c: Classifier, token: Token, env: Dict<string>, draw: Option<nat>)
    requires token != [] && IsAssignment(c, token)
    ensures var str := TokenText(token, c.variables, env, draw);
      exists name, value :: Classify(c, token, env, draw) == c.(variables := c.variables.Put(name, value))
        && '=' !in name && (if '=' in str then str == name + "=" + value else name == str && value == "")
  {
    var str := TokenText(token, c.variables, env, draw);
    BeforeAfter(str, '=');
    var name, value := Before(str, '='), After(str, '=');
    assert Classify(c, token, env, draw) == c.(variables := c.variables.Put(name, value));
  }

  /** The raw text of segments taken as they are. */
  function Raw(token: Token): string {
    if token == [] then [] else token[0].value + Raw(token[1..])
  }

  /** Single-quoted segments are never substituted. */
  lemma {:induction false} SingleQuotedVerbatim(token: Token, variables: Dict<string>, env: Dict<string>, draw: Option<nat>)
    requires forall i :: 0 <= i < |token| ==> token[i].inSingleQuotes
    ensures TokenText(token, variables, env, draw) == Raw(token)
  {
    if token != [] {
      SingleQuotedVerbatim(token[1..], variables, env, draw);
    }
  }

  // ----- Whole lines -----

  /** A word of ordinary characters, each becoming a token of one unquoted segment. */
  predicate Word(w: string) {
    w != [] && forall i :: 0 <= i < |w| ==> w[i] !in " \"'\\<>"
  }

  /** A word without spaces, quotes or backslashes: the tokenizer collects it as it is. */
  predicate Bare(w: string) {
    w != [] && forall i :: 0 <= i < |w| ==> w[i] !in " \"'\\"
  }

  /** One unquoted segment per word. */
  function WordTokens(ws: seq<string>): (ts: seq<Token>)
    ensures |ts| == |ws| && NoEmptyToken(ts)
  {
    seq(|ws|, i requires 0 <= i < |ws| => [Segment(false, ws[i])])
  }

  lemma {:induction false} FeedWords(ws: seq<string>)
    requires forall i :: 0 <= i < |ws| ==> Bare(ws[i])
    ensures Feed(Argument, Initial, Join(ws, " ") + " ") == (Argument, Initial.(tokens := WordTokens(ws)))
    decreases |ws|
  {
    if ws == [] {
      assert Join(ws, " ") + " " == [' '] + [];
      assert WordTokens(ws) == [];
      assert NonEmpty([Segment(false, [])]) == [];
      FeedStep(Argument, Initial, ' ', []);
      assert [' '] + [] == " ";
    } else {
      var front, w := ws[..|ws| - 1], ws[|ws| - 1];
      assert ws == front + [w];
      JoinSnoc(front, w, " ");
      if front == [] {
        FeedToken(Initial, w);
        assert Initial.tokens + [[Segment(false, w)]] == WordTokens(ws);
      } else {
        FeedWords(front);
        var d := Initial.(tokens := WordTokens(front));
        assert Join(ws, " ") + " " == (Join(front, " ") + " ") + (w + " ");
        RunAppend(Tokenizer, Initial, Argument, Initial, Join(front, " ") + " ", w + " ");
        FeedToken(d, w);
        assert d.tokens + [[Segment(false, w)]] == WordTokens(ws);
      }
    }
  }

  lemma Join3(a: string, b: string, c: string)
    ensures Join([a, b, c], " ") == a + " " + b + " " + c
  {
    assert [a, b, c][1..] == [b, c] && [b, c][1..] == [c];
    assert Join([c], " ") == c;
    assert Join([b, c], " ") == b + " " + c;
    assert Join([a, b, c], " ") == a + " " + (b + " " + c);
  }

  /** Space-separated words without quotes, backslashes or operators give one token each. */
  lemma WordsTokenize(ws: seq<string>)
    requires forall i :: 0 <= i < |ws| ==> Word(ws[i])
    ensures Tokenize(Join(ws, " ")) == WordTokens(ws)
  {
    WordsHaveNoOperator(ws);
    PadPlain(Join(ws, " "));
    FeedWords(ws);
  }

  /** A line of three plain words is classified one word-token at a time. */
  lemma BuildThree(a: string, b: string, c: string, env: Dict<string>, draw: Option<nat>, c1: Classifier, c2: Classifier, c3: Classifier)
    requires Word(a) && Word(b) && Word(c)
    requires Classify(Start, [Segment(false, a)], env, draw) == c1
    requires Classify(c1, [Segment(false, b)], env, draw) == c2
    requires Classify(c2, [Segment(false, c)], env, draw) == c3
    ensures BuildSpec(a + " " + b + " " + c, env, draw) == ParsedLine(c3.variables, c3.args, c3.redirections)
  {
    var ws := [a, b, c];
    Join3(a, b, c);
    WordsTokenize(ws);
    var ts := WordTokens(ws);
    assert ts == [[Segment(false, a)], [Segment(false, b)], [Segment(false, c)]];
    ClassifyThree(ts, env, draw);
  }

  lemma {:induction false} WordsHaveNoOperator(ws: seq<string>)
    requires forall i :: 0 <= i < |ws| ==> Word(ws[i])
    ensures forall i :: 0 <= i < |Join(ws, " ")| ==> !IsOperator(Join(ws, " ")[i])
    decreases |ws|
  {
    if |ws| > 1 {
      WordsHaveNoOperator(ws[1..]);
      var j := Join(ws, " ");
      assert j == ws[0] + " " + Join(ws[1..], " ");
      forall i | 0 <= i < |j| ensures !IsOperator(j[i]) {
        if i < |ws[0]| { assert j[i] == ws[0][i]; }
        else if i > |ws[0]| { assert j[i] == Join(ws[1..], " ")[i - |ws[0]| - 1]; }
      }
    }
  }

  /** A word is left alone by the substitution. */
  lemma PlainWord(w: string, variables: Dict<string>, env: Dict<string>, draw: Option<nat>)
    requires '$' !in w
    ensures TokenText([Segment(false, w)], variables, env, draw) == w
  {
    ExpandLiteralPrefix(w, [], variables, env, draw);
    assert w + [] == w;
  }

  /** An empty or all-space line gives no assignment, argument or redirection. */
  lemma BlankLine(value: string, env: Dict<string>, draw: Option<nat>)
    requires forall i :: 0 <= i < |value| ==> value[i] == ' '
    ensures BuildSpec(value, env, draw) == ParsedLine(Empty(), [], [])
  {
    BlankLineTokens(value);
  }

  /** A word `NAME=VALUE` before the command is stored split at its first `=`. */
  lemma AssignWord(c: Classifier, name: string, val: string, env: Dict<string>, draw: Option<nat>)
    requires c.beforeCmd
    requires Word(name + "=" + val) && '$' !in name + "=" + val && '=' !in name
    ensures Classify(c, [Segment(false, name + "=" + val)], env, draw) == c.(variables := c.variables.Put(name, val))
  {
    var w := name + "=" + val;
    PlainWord(w, c.variables, env, draw);
    assert w == name + ['='] + val;
    SplitAtFirst(name, '=', val);
    JoinSplit(val, '=');
    assert ([name] + Split(val, '='))[1..] == Split(val, '=');
  }

  /** A word that is no assignment and no operator is the next argument. */
  lemma ArgumentWord(c: Classifier, w: string, env: Dict<string>, draw: Option<nat>)
    requires !c.beforeCmd || '=' !in w
    requires !c.isTarget && Word(w) && '$' !in w
    ensures Classify(c, [Segment(false, w)], env, draw) == c.(beforeCmd := false, args := c.args + [w])
  {
    PlainWord(w, c.variables, env, draw);
  }

  /**
   * `NAME=VALUE cmd NAME=VALUE`: the first word is an assignment split at its
   * first `=`, the command ends the assignments, and the same word after it is
   * an ordinary argument.
   */
  lemma AssignmentsBeforeCommand(name: string, val: string, cmd: string, env: Dict<string>, draw: Option<nat>)
    requires Word(name) && Word(val) && Word(cmd)
    requires '=' !in name && '=' !in cmd && '$' !in name && '$' !in val && '$' !in cmd
    ensures var w := name + "=" + val;
      BuildSpec(w + " " + cmd + " " + w, env, draw) == ParsedLine(Empty<string>().Put(name, val), [cmd, w], [])
  {
    var w := name + "=" + val;
    assert Word(w) && '$' !in w;
    var c1 := Start.(variables := Empty<string>().Put(name, val));
    var c2 := c1.(beforeCmd := false, args := [cmd]);
    AssignWord(Start, name, val, env, draw);
    ArgumentWord(c1, cmd, env, draw);
    ArgumentWord(c2, w, env, draw);
    BuildThree(w, cmd, w, env, draw, c1, c2, c2.(beforeCmd := false, args := [cmd] + [w]));
    assert [cmd] + [w] == [cmd, w];
  }

  /** Text without operators before the seam passes through padding unchanged. */
  lemma {:induction false} PadPlainPrefix(a: string, b: string)
    requires forall i :: 0 <= i < |a| ==> !IsOperator(a[i])
    ensures Pad(a + b) == a + Pad(b)
    decreases |a|
  {
    if a == [] {
      assert a + b == b;
    } else {
      assert (a + b)[0] == a[0] && (a + b)[1..] == a[1..] + b;
      PadPlainPrefix(a[1..], b);
    }
  }

  /** Every character of the string is c. */
  lemma {:induction false} RunLengthAll(s: string, c: char)
    requires forall i :: 0 <= i < |s| ==> s[i] == c
    ensures RunLength(s, c) == |s|
    decreases |s|
  {
    if s != [] {
      RunLengthAll(s[1..], c);
    }
  }

  /** An operator followed by a word is padded on both sides. */
  lemma PadOperator(op: string, target: string)
    requires Word(target) && IsOperatorWord(op)
    ensures Pad(op + target) == " " + op + " " + target
  {
    var s := op + target;
    var c := op[0];
    assert forall i :: 0 <= i < |op| ==> op[i] == c;
    RunLengthAll(op, c);
    RunLengthAppend(op, target, c);
    assert s[0] == c && IsOperator(c);
    assert s[..|op|] == op && s[|op|..] == target;
    PadPlain(target);
  }

  /** `cmd>target`, `cmd>>target`, `cmd<target`, `cmd<<target` are padded into three words. */
  lemma PadRedirection(cmd: string, op: string, target: string)
    requires Word(cmd) && Word(target) && IsOperatorWord(op)
    ensures Pad(cmd + op + target) == Join([cmd, op, target], " ")
  {
    assert cmd + op + target == cmd + (op + target);
    PadPlainPrefix(cmd, op + target);
    PadOperator(op, target);
    Join3(cmd, op, target);
  }

  /** One more token is one more round of classification. */
  lemma ClassifySnoc(ts: seq<Token>, t: Token, env: Dict<string>, draw: Option<nat>)
    requires NoEmptyToken(ts) && t != []
    ensures NoEmptyToken(ts + [t])
    ensures ClassifyAll(ts + [t], env, draw) == Classify(ClassifyAll(ts, env, draw), t, env, draw)
  {
    assert (ts + [t])[..|ts|] == ts;
  }

  /** The classification of three tokens, one round at a time. */
  lemma ClassifyThree(ts: seq<Token>, env: Dict<string>, draw: Option<nat>)
    requires |ts| == 3 && NoEmptyToken(ts)
    ensures ClassifyAll(ts, env, draw) == Classify(Classify(Classify(Start, ts[0], env, draw), ts[1], env, draw), ts[2], env, draw)
  {
    ClassifySnoc([], ts[0], env, draw);
    assert [] + [ts[0]] == ts[..1];
    ClassifySnoc(ts[..1], ts[1], env, draw);
    assert ts[..1] + [ts[1]] == ts[..2];
    ClassifySnoc(ts[..2], ts[2], env, draw);
    assert ts[..2] + [ts[2]] == ts;
  }

  lemma ClassifyTwo(ts: seq<Token>, env: Dict<string>, draw: Option<nat>)
    requires |ts| == 2 && NoEmptyToken(ts)
    ensures ClassifyAll(ts, env, draw) == Classify(Classify(Start, ts[0], env, draw), ts[1], env, draw)
  {
    ClassifySnoc([], ts[0], env, draw);
    assert [] + [ts[0]] == ts[..1];
    ClassifySnoc(ts[..1], ts[1], env, draw);
    assert ts[..1] + [ts[1]] == ts;
  }

  lemma {:induction false} NonEmptyAppend(a: seq<Segment>, b: seq<Segment>)
    ensures NonEmpty(a + b) == NonEmpty(a) + NonEmpty(b)
    decreases |a|
  {
    if a == [] {
      assert a + b == b;
    } else {
      assert (a + b)[0] == a[0] && (a + b)[1..] == a[1..] + b;
      NonEmptyAppend(a[1..], b);
    }
  }

  /** An operator word records its operator as the pending mode. */
  lemma OperatorWord(c: Classifier, op: string, env: Dict<string>, draw: Option<nat>)
    requires IsOperatorWord(op)
    ensures Classify(c, [Segment(false, op)], env, draw) == c.(mode := op, isTarget := true)
  {
    PlainWord(op, c.variables, env, draw);
  }

  /** The word after an operator is its target. */
  lemma TargetWord(c: Classifier, target: string, env: Dict<string>, draw: Option<nat>)
    requires c.isTarget && !c.beforeCmd && Word(target) && '$' !in target
    ensures Classify(c, [Segment(false, target)], env, draw)
         == c.(isTarget := false, redirections := c.redirections + [Redirection(c.mode, target)])
  {
    PlainWord(target, c.variables, env, draw);
  }

  /**
   * `cmd>target` and its variants: padding cuts the operator out as a word of
   * its own, the operator string is the mode and the next word the target.
   */
  lemma CommandWithRedirection(cmd: string, op: string, target: string, env: Dict<string>, draw: Option<nat>)
    requires Word(cmd) && Word(target) && IsOperatorWord(op)
    requires '=' !in cmd && '$' !in cmd && '$' !in target
    ensures BuildSpec(cmd + op + target, env, draw) == ParsedLine(Empty(), [cmd], [Redirection(op, target)])
  {
    var ws := [cmd, op, target];
    PadRedirection(cmd, op, target);
    FeedWords(ws);
    var ts := WordTokens(ws);
    assert ts == [[Segment(false, ws[0])], [Segment(false, ws[1])], [Segment(false, ws[2])]];
    assert Tokenize(cmd + op + target) == ts;
    var c1 := Start.(beforeCmd := false, args := [cmd]);
    var c2 := c1.(mode := op, isTarget := true);
    ArgumentWord(Start, cmd, env, draw);
    OperatorWord(c1, op, env, draw);
    TargetWord(c2, target, env, draw);
    ClassifyThree(ts, env, draw);
  }

  /** `'text'` after an emptied argument state ends up as one single-quoted segment. */
  lemma FeedSingleQuoted(d: TokData, t: string)
    requires d.arg == ArgState([], [], false)
    requires t != [] && '\'' !in t && '\\' !in t
    ensures Feed(Argument, d, "'" + t + "' ") == (Argument, d.(tokens := d.tokens + [[Segment(true, t)]], quoteChars := t, quoteEscaped := false))
  {
    var d1 := d.(arg := ArgState([], [Segment(false, [])], false), quoteChars := [], quoteEscaped := false);
    var d2 := d1.(quoteChars := t);
    assert "'" + t + "' " == ['\''] + (t + "' ");
    OpenSingleQuote(d, t + "' ");
    RunAppend(Tokenizer, Initial, InSingleQuotes, d1, t, "' ");
    FeedQuotedText(true, d1, t);
    assert [] + t == t;
    CloseSingleQuote(d, t);
    assert Feed(InSingleQuotes, d1, t) == (InSingleQuotes, d2);
  }

  /** A `'` in an emptied argument state opens a single quote, after an empty unquoted segment. */
  lemma OpenSingleQuote(d: TokData, rest: string)
    requires d.arg == ArgState([], [], false)
    ensures Feed(Argument, d, ['\''] + rest)
         == Feed(InSingleQuotes, d.(arg := ArgState([], [Segment(false, [])], false), quoteChars := [], quoteEscaped := false), rest)
  {
    var d1 := d.(arg := ArgState([], [Segment(false, [])], false), quoteChars := [], quoteEscaped := false);
    assert d.arg.values + [Segment(false, d.arg.chars)] == [Segment(false, [])];
    FeedStep(Argument, d, '\'', rest);
    assert Tokenizer(Argument, '\'', d) == WithData(InSingleQuotes, d1);
  }

  /** The closing `'` and the space after it complete the token of the one quoted segment. */
  lemma CloseSingleQuote(d: TokData, t: string)
    requires d.arg == ArgState([], [], false) && t != []
    ensures var d2 := d.(arg := ArgState([], [Segment(false, [])], false), quoteChars := t, quoteEscaped := false);
      Feed(InSingleQuotes, d2, "' ") == (Argument, d.(tokens := d.tokens + [[Segment(true, t)]], quoteChars := t, quoteEscaped := false))
  {
    var d2 := d.(arg := ArgState([], [Segment(false, [])], false), quoteChars := t, quoteEscaped := false);
    var d3 := d2.(arg := ArgState([], [Segment(false, []), Segment(true, t)], false));
    assert "' " == ['\''] + " ";
    FeedStep(InSingleQuotes, d2, '\'', " ");
    assert d2.arg.values + [Segment(true, d2.quoteChars)] == [Segment(false, []), Segment(true, t)];
    assert Tokenizer(InSingleQuotes, '\'', d2) == WithData(Argument, d3);
    var e, q := Segment(false, []), Segment(true, t);
    assert d3.arg.values + [Segment(false, d3.arg.chars)] == [e, q, e];
    QuotedBetweenEmpty(t);
    FeedStep(Argument, d3, ' ', []);
    assert [' '] + [] == " ";
    var d4 := d.(tokens := d.tokens + [[q]], quoteChars := t, quoteEscaped := false);
    assert Carried(Tokenizer(Argument, ' ', d3), Initial) == d4;
    assert Feed(Argument, d3, " ") == (Argument, d4);
  }

  /** The empty unquoted segments around a quoted one are dropped. */
  lemma QuotedBetweenEmpty(t: string)
    requires t != []
    ensures NonEmpty([Segment(false, []), Segment(true, t)]) == [Segment(true, t)]
    ensures NonEmpty([Segment(false, []), Segment(true, t), Segment(false, [])]) == [Segment(true, t)]
  {
    var e, q := Segment(false, []), Segment(true, t);
    assert NonEmpty([e]) == [] && NonEmpty([q]) == [q];
    NonEmptyAppend([e], [q]);
    NonEmptyAppend([e, q], [e]);
    assert [e] + [q] == [e, q] && [e, q] + [e] == [e, q, e];
  }

  lemma SingleQuotedTokens(cmd: string, t: string)
    requires Word(cmd)
    requires t != [] && '\'' !in t && '\\' !in t && '>' !in t && '<' !in t
    ensures Tokenize(cmd + " '" + t + "'") == [[Segment(false, cmd)], [Segment(true, t)]]
  {
    var line := cmd + " '" + t + "'";
    assert forall i :: 0 <= i < |line| ==> !IsOperator(line[i]) by {
      forall i | 0 <= i < |line| ensures !IsOperator(line[i]) {
        if i < |cmd| { assert line[i] == cmd[i]; }
        else if |cmd| + 1 < i < |line| - 1 { assert line[i] == t[i - |cmd| - 2]; assert t[i - |cmd| - 2] in t; }
      }
    }
    PadPlain(line);
    var d1 := Initial.(tokens := [[Segment(false, cmd)]]);
    FeedToken(Initial, cmd);
    assert Initial.tokens + [[Segment(false, cmd)]] == d1.tokens;
    assert line + " " == (cmd + " ") + ("'" + t + "' ");
    RunAppend(Tokenizer, Initial, Argument, Initial, cmd + " ", "'" + t + "' ");
    FeedSingleQuoted(d1, t);
    assert d1.tokens + [[Segment(true, t)]] == [[Segment(false, cmd)], [Segment(true, t)]];
  }

  /** `cmd 'text'`: the single-quoted text is an argument exactly as written, `$` and spaces included. */
  lemma SingleQuotedArgument(cmd: string, t: string, env: Dict<string>, draw: Option<nat>)
    requires Word(cmd) && '=' !in cmd && '$' !in cmd
    requires t != [] && '\'' !in t && '\\' !in t && '>' !in t && '<' !in t
    ensures BuildSpec(cmd + " '" + t + "'", env, draw) == ParsedLine(Empty(), [cmd, t], [])
  {
    SingleQuotedTokens(cmd, t);
    var ts := [[Segment(false, cmd)], [Segment(true, t)]];
    var c1 := Start.(beforeCmd := false, args := [cmd]);
    ArgumentWord(Start, cmd, env, draw);
    SingleQuotedVerbatim([Segment(true, t)], c1.variables, env, draw);
    assert Raw([Segment(true, t)]) == t;
    ClassifyTwo(ts, env, draw);
    assert Classify(c1, ts[1], env, draw) == c1.(args := [cmd, t]);
  }

  /** A reference `$NAME` to an assignment made earlier on the line is replaced by its value. */
  lemma ReferenceWord(c: Classifier, name: string, env: Dict<string>, draw: Option<nat>)
    requires !c.beforeCmd && !c.isTarget && c.variables.Has(name)
    requires name != [] && name[0] != '{' && forall i :: 0 <= i < |name| ==> !IsWhitespace(name[i])
    ensures Classify(c, [Segment(false, "$" + name)], env, draw) == c.(args := c.args + [c.variables.vals[name]])
  {
    GreedyName(name, [], c.variables, env, draw);
    assert "$" + name + [] == "$" + name;
    var seg := Segment(false, "$" + name);
    assert [seg][1..] == [];
    assert Expand("$" + name, c.variables, env, draw) == c.variables.vals[name] + [];
    assert TokenText([seg], c.variables, env, draw) == c.variables.vals[name];
  }

  /** `NAME=VALUE cmd $NAME`: the argument is substituted with the assignment made earlier on the line. */
  lemma EarlierAssignmentSubstituted(name: string, val: string, cmd: string, env: Dict<string>, draw: Option<nat>)
    requires Word(name) && Word(val) && Word(cmd)
    requires '=' !in name && '=' !in cmd && '$' !in name && '$' !in val && '$' !in cmd
    requires name[0] != '{' && forall i :: 0 <= i < |name| ==> !IsWhitespace(name[i])
    ensures BuildSpec(name + "=" + val + " " + cmd + " $" + name, env, draw)
         == ParsedLine(Empty<string>().Put(name, val), [cmd, val], [])
  {
    var w := name + "=" + val;
    assert Word(w) && '$' !in w;
    var ref := "$" + name;
    assert Word(ref);
    assert w + " " + cmd + " " + ref == name + "=" + val + " " + cmd + " $" + name;
    var vars := Empty<string>().Put(name, val);
    var c1 := Start.(variables := vars);
    var c2 := c1.(beforeCmd := false, args := [cmd]);
    AssignWord(Start, name, val, env, draw);
    ArgumentWord(c1, cmd, env, draw);
    assert c2.variables.vals[name] == val;
    ReferenceWord(c2, name, env, draw);
    BuildThree(w, cmd, ref, env, draw, c1, c2, c2.(args := [cmd] + [val]));
    assert [cmd] + [val] == [cmd, val];
  }
}
