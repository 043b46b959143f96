/** The justfile parser of parser.go: the document types, the per-line classifier with
    its fixed priority order, the two-state line machine (idle, or a recipe open) that
    threads a one-line pending doc comment, and the helpers that split a recipe header
    into parameters and dependencies.

    The input is the sequence of lines the scanner would deliver; a read failure is an
    abstract flag. */
module Parser {
  import opened Wrappers
  import opened Text
  import opened Patterns

  // ---------------------------------------------------------------- document types

  /** `Param.Variadic`: the source stores "", "*" or "+". */
  datatype Variadic = Fixed | Star | Plus

  /** A recipe parameter. `default` is "" for a required parameter. */
  datatype Param = Param(name: string, default: string, variadic: Variadic)

  /** A top-level assignment; `backtick` marks a value that is a shell command. */
  datatype Variable = Variable(name: string, value: string, exported: bool, backtick: bool)

  datatype Alias = Alias(name: string, target: string)

  /** A recipe: `doc` is the comment directly above the header, `lines` the body with
      one indentation unit removed. */
  datatype Recipe = Recipe(
    name: string,
    doc: string,
    params: seq<Param>,
    dependencies: seq<string>,
    lines: seq<string>,
    silent: bool)

  datatype Justfile = Justfile(variables: seq<Variable>, recipes: seq<Recipe>, aliases: seq<Alias>)

  datatype ParseError = ReadError

  // ---------------------------------------------------------------- unquote

  predicate IsQuoteChar(c: char) {
    c == '"' || c == '\''
  }

  /** Wrapped in one layer of matching single or double quotes. */
  predicate IsQuoted(s: string) {
    |s| >= 2 && IsQuoteChar(s[0]) && s[|s| - 1] == s[0]
  }

  /** `x` wrapped in the quote character `q`. */
  function Quote(q: char, x: string): (r: string)
    ensures |r| == |x| + 2
  {
    [q] + x + [q]
  }

  /** Strips one layer of matching quotes. */
  function Unquote(s: string): (r: string)
    ensures |r| == |s| || |r| == |s| - 2
    ensures |r| == |s| - 2 <==> IsQuoted(s)
  {
    if IsQuoted(s) then s[1..|s| - 1] else s
  }

  /** Unquoting undoes quoting, for either quote character. */
  lemma UnquoteQuote(q: char, x: string)
    requires IsQuoteChar(q)
    ensures Unquote(Quote(q, x)) == x
  {
    var s := Quote(q, x);
    assert s[0] == q && s[|s| - 1] == q;
    assert s[1..|s| - 1] == x;
  }

  /** Anything not wrapped in matching quotes comes back unchanged. */
  lemma UnquoteUnquoted(s: string)
    requires !IsQuoted(s)
    ensures Unquote(s) == s
  {
  }

  /** Every quoted string is some `Quote(q, x)`, so the two lemmas above pin `Unquote`
      down on every input. */
  lemma QuotedIsQuote(s: string)
    requires IsQuoted(s)
    ensures s == Quote(s[0], Unquote(s))
  {
  }

  // ---------------------------------------------------------------- variable values

  /** What the source does with the trimmed value of an assignment, including the
      out-of-range slice a lone backtick runs into. */
  datatype SliceOutcome = Sliced(value: string, backtick: bool) | SlicePanic

  /** The value rule as written: the backtick test looks at the first and last
      character without requiring them to be different characters. */
  function VariableValueAsWritten(raw: string): SliceOutcome {
    if StartsWith(raw, "`") && |raw| >= 1 && raw[|raw| - 1] == '`' then
      if 1 <= |raw| - 1 then Sliced(raw[1..|raw| - 1], true) else SlicePanic
    else Sliced(Unquote(raw), false)
  }

  /** A single backtick passes both tests and makes the slice bounds cross. */
  lemma LoneBacktickPanics()
    ensures VariableValueAsWritten("`") == SlicePanic
  {
  }

  /** The value rule with the length guard: a backtick command needs both backticks.
      Returns the stored value and whether it is a command. */
  function VariableValue(raw: string): (r: (string, bool))
    ensures r.1 <==> |raw| >= 2 && raw[0] == '`' && raw[|raw| - 1] == '`'
    ensures r.1 ==> raw == Quote('`', r.0)
    ensures !r.1 ==> r.0 == Unquote(raw)
  {
    if |raw| >= 2 && raw[0] == '`' && raw[|raw| - 1] == '`' then (raw[1..|raw| - 1], true)
    else (Unquote(raw), false)
  }

  /** The corrected rule never panics and agrees with the source everywhere else. */
  lemma VariableValueAgrees(raw: string)
    requires raw != "`"
    ensures VariableValueAsWritten(raw) == Sliced(VariableValue(raw).0, VariableValue(raw).1)
  {
  }

  /** A backtick-wrapped command is stored without its backticks and flagged. */
  lemma VariableValueOfCommand(cmd: string)
    ensures VariableValue(Quote('`', cmd)) == (cmd, true)
  {
    var s := Quote('`', cmd);
    assert s[0] == '`' && s[|s| - 1] == '`';
    assert s[1..|s| - 1] == cmd;
  }

  /** A lone backtick is an ordinary one-character value under the corrected rule. */
  lemma LoneBacktickIsPlain()
    ensures VariableValue("`") == ("`", false)
  {
  }

  /** `raw` is how the value of `x` is written: a command wrapped in backticks exactly
      when `x` is flagged as one, otherwise the quoted or bare value. */
  predicate WrittenAs(x: Variable, raw: string) {
    && (x.backtick <==> |raw| >= 2 && raw[0] == '`' && raw[|raw| - 1] == '`')
    && (x.backtick ==> raw == Quote('`', x.value))
    && (!x.backtick ==> x.value == Unquote(raw))
  }

  /** The variable an assignment match declares: the value is the captured text
      trimmed, then either a backtick command without its backticks or unquoted. */
  function VariableOf(c: VariableCapture): (v: Variable)
    ensures v.name == c.name && v.exported == c.exported
    ensures WrittenAs(v, TrimSpace(c.value))
  {
    var r := VariableValue(TrimSpace(c.value));
    Variable(c.name, r.0, c.exported, r.1)
  }

  // ---------------------------------------------------------------- parameters

  /** One parameter token: `*X`/`+X` is variadic, `n=v` has a default, anything else
      is a plain name. */
  function ParamOf(tok: string): (p: Param)
    ensures p.variadic != Fixed ==>
      p.default == [] && IsIdent(p.name) && tok == [if p.variadic == Star then '*' else '+'] + p.name
    ensures p.variadic == Fixed ==> |p.name| <= |tok| && tok[..|p.name|] == p.name
  {
    match MatchVariadic(tok)
    case Some(m) =>
      assert tok == [tok[0]] + tok[1..];
      Param(m.1, "", if m.0 == '*' then Star else Plus)
    case None =>
      match MatchDefault(tok)
      case Some(d) =>
        MatchDefaultSound(tok);
        Param(d.0, Unquote(d.1), Fixed)
      case None => Param(tok, "", Fixed)
  }

  lemma ParamOfVariadic(marker: char, name: string)
    requires marker == '*' || marker == '+'
    requires IsIdent(name)
    ensures ParamOf([marker] + name) == Param(name, "", if marker == '*' then Star else Plus)
  {
    assert ([marker] + name)[1..] == name;
  }

  lemma ParamOfDefault(name: string, v: string)
    requires IsIdent(name) && |v| >= 1 && All(v, NotNewline)
    ensures ParamOf(name + ("=" + v)) == Param(name, Unquote(v), Fixed)
  {
    var tok := name + ("=" + v);
    assert tok[0] == name[0];
    MatchDefaultComplete(tok, name, v);
  }

  /** A default written as an empty quoted string parses to the same parameter as a
      bare name: unquoting leaves the empty text, which is no default at all. */
  lemma EmptyDefaultIsNoDefault(name: string, q: char)
    requires IsIdent(name) && IsQuoteChar(q)
    ensures ParamOf(name + ("=" + Quote(q, ""))) == ParamOf(name)
    ensures ParamOf(name) == Param(name, "", Fixed)
  {
    ParamOfDefault(name, Quote(q, ""));
    UnquoteQuote(q, "");
    IdentLenOf(name, []);
    assert name + [] == name;
  }

  /** A token matching neither parameter pattern is taken verbatim as the name. */
  lemma ParamOfPlain(tok: string)
    requires MatchVariadic(tok).None? && MatchDefault(tok).None?
    ensures ParamOf(tok) == Param(tok, "", Fixed)
  {
  }

  /** One `Param` per whitespace-separated token, in order. */
  function ParseParams(s: string): (r: seq<Param>)
    ensures |r| == |Fields(s)|
  {
    ParamsOfTokens(Fields(s))
  }

  function ParamsOfTokens(toks: seq<string>): (r: seq<Param>)
    ensures |r| == |toks|
    ensures forall i :: 0 <= i < |toks| ==> r[i] == ParamOf(toks[i])
  {
    if toks == [] then [] else [ParamOf(toks[0])] + ParamsOfTokens(toks[1..])
  }

  /** Parameter text written as space-separated tokens parses token by token. */
  lemma ParseParamsOfJoin(toks: seq<string>)
    requires forall i :: 0 <= i < |toks| ==> IsWord(toks[i])
    ensures ParseParams(Join(toks, " ")) == ParamsOfTokens(toks)
  {
    FieldsOfJoin(toks);
  }

  /** However the parameter tokens are spaced, they parse token by token. */
  lemma ParseParamsOfSpaced(lead: string, toks: seq<string>, gaps: seq<string>)
    requires All(lead, IsSpace) && |gaps| == |toks| && Gaps(gaps)
    requires forall i :: 0 <= i < |toks| ==> IsWord(toks[i])
    ensures ParseParams(lead + Spaced(toks, gaps)) == ParamsOfTokens(toks)
  {
    FieldsOfSpaced(lead, toks, gaps);
  }

  /** The dependency names: the whitespace-separated tokens, in order. */
  function ParseDeps(s: string): (r: seq<string>)
    ensures forall i :: 0 <= i < |r| ==> IsWord(r[i])
  {
    Fields(s)
  }

  lemma ParseDepsOfJoin(deps: seq<string>)
    requires forall i :: 0 <= i < |deps| ==> IsWord(deps[i])
    ensures ParseDeps(Join(deps, " ")) == deps
  {
    FieldsOfJoin(deps);
  }

  /** However the dependency names are spaced, they come back in order. */
  lemma ParseDepsOfSpaced(lead: string, deps: seq<string>, gaps: seq<string>)
    requires All(lead, IsSpace) && |gaps| == |deps| && Gaps(gaps)
    requires forall i :: 0 <= i < |deps| ==> IsWord(deps[i])
    ensures ParseDeps(lead + Spaced(deps, gaps)) == deps
  {
    FieldsOfSpaced(lead, deps, gaps);
  }

  // ---------------------------------------------------------------- line classes

  /** A non-empty line starting with a tab or four spaces. */
  predicate IsBodyLine(line: string) {
    |line| > 0 && (line[0] == '\t' || StartsWith(line, "    "))
  }

  /** Removes one indentation unit, the tab taking precedence. */
  function StripIndent(line: string): (r: string)
    requires IsBodyLine(line)
    ensures line == (if line[0] == '\t' then "\t" else "    ") + r
  {
    if line[0] == '\t' then line[1..] else line[4..]
  }

  lemma StripTab(x: string)
    ensures IsBodyLine("\t" + x) && StripIndent("\t" + x) == x
  {
  }

  lemma StripSpaces(x: string)
    ensures IsBodyLine("    " + x) && StripIndent("    " + x) == x
  {
    assert ("    " + x)[..4] == "    ";
  }

  /** What one line is, given whether a recipe is open before it. */
  datatype LineKind =
    | BodyLine(text: string)
    | BlankLine
    | SeparatorLine
    | CommentLine(text: string)
    | AliasLine(alias: Alias)
    | VariableLine(variable: Variable)
    | HeaderLine(name: string, params: seq<Param>, deps: seq<string>)
    | OtherLine

  /** The kind of a recipe header line: parameters and dependencies are parsed only
      from text that is not blank. */
  function HeaderKind(h: HeaderCapture): (k: LineKind)
    ensures k.HeaderLine? && k.name == h.name
    ensures k.params == ParseParams(h.params) && k.deps == ParseDeps(h.deps)
  {
    var ps := TrimSpace(h.params);
    var ds := TrimSpace(h.deps);
    FieldsOfTrimmed(h.params);
    FieldsOfTrimmed(h.deps);
    HeaderLine(h.name, if ps == [] then [] else ParseParams(ps), if ds == [] then [] else ParseDeps(ds))
  }

  /** A line that is neither blank nor a comment: alias, then variable, then header. */
  function ClassifyStatement(t: string): (k: LineKind)
    ensures k.AliasLine? <==> MatchAlias(t).Some?
    ensures k.VariableLine? <==> MatchAlias(t).None? && MatchVariable(t).Some?
    ensures k.HeaderLine? <==> MatchAlias(t).None? && MatchVariable(t).None? && MatchHeader(t).Some?
    ensures k.AliasLine? || k.VariableLine? || k.HeaderLine? || k == OtherLine
  {
    match MatchAlias(t)
    case Some(a) => AliasLine(Alias(a.name, a.target))
    case None =>
      match MatchVariable(t)
      case Some(v) => VariableLine(VariableOf(v))
      case None =>
        match MatchHeader(t)
        case Some(h) => HeaderKind(h)
        case None => OtherLine
  }

  /** Classification of a trimmed, non-body line, in the source's priority order:
      blank, section separator, comment, then the statements. */
  function ClassifyTrimmed(t: string): (k: LineKind)
    ensures !k.BodyLine?
  {
    if t == [] then BlankLine
    else if IsSectionSep(t) then SeparatorLine
    else if t[0] == '#' then CommentLine(TrimSpace(t[1..]))
    else ClassifyStatement(t)
  }

  /** Blank lines, separators and comments are told apart before anything else, a
      separator before a comment even though it starts with `#`. */
  lemma ClassifyTrimmedComments(t: string)
    ensures ClassifyTrimmed(t) == BlankLine <==> t == []
    ensures ClassifyTrimmed(t) == SeparatorLine <==> t != [] && IsSectionSep(t)
    ensures ClassifyTrimmed(t).CommentLine? <==> t != [] && !IsSectionSep(t) && t[0] == '#'
    ensures ClassifyTrimmed(t).CommentLine? ==> ClassifyTrimmed(t).text == TrimSpace(t[1..])
  {
    if t != [] && t[0] != '#' {
      ClassifyStatementNotComment(t);
    }
  }

  lemma ClassifyStatementNotComment(t: string)
    ensures var k := ClassifyStatement(t);
      k != BlankLine && k != SeparatorLine && !k.CommentLine?
  {
  }

  /** Any line that is neither blank nor a comment is classified as a statement. */
  lemma ClassifyTrimmedStatement(t: string)
    requires t != [] && t[0] != '#'
    ensures ClassifyTrimmed(t) == ClassifyStatement(t)
  {
    assert !IsSectionSep(t) by {
      assert !StartsWith(t, "#") by {
        assert t[0] != "#"[0];
      }
    }
  }

  /** The body-line test comes first and only while a recipe is open. */
  function Classify(open: bool, line: string): (k: LineKind)
    ensures k.BodyLine? <==> open && IsBodyLine(line)
    ensures k.BodyLine? ==> k.text == StripIndent(line)
    ensures !k.BodyLine? ==> k == ClassifyTrimmed(TrimSpace(line))
  {
    if open && IsBodyLine(line) then BodyLine(StripIndent(line))
    else ClassifyTrimmed(TrimSpace(line))
  }

  // ---------------------------------------------------------------- the line machine

  /** The document built so far, the recipe being collected, and the pending doc. */
  datatype ParserState = ParserState(doc: Justfile, open: Option<Recipe>, pendingDoc: string)

  const Initial := ParserState(Justfile([], [], []), None, "")

  /** The document with the open recipe, if any, appended. */
  function Flush(st: ParserState): (jf: Justfile)
    ensures jf.variables == st.doc.variables && jf.aliases == st.doc.aliases
    ensures st.open.None? ==> jf.recipes == st.doc.recipes
    ensures st.open.Some? ==> jf.recipes == st.doc.recipes + [st.open.value]
  {
    match st.open
    case None => st.doc
    case Some(r) => st.doc.(recipes := st.doc.recipes + [r])
  }

  /** What a non-body line does once the open recipe has been closed into `doc`:
      variables and aliases are appended, a header opens a recipe that takes the
      pending doc, a comment becomes the pending doc, and every other line clears it. */
  function Enter(doc: Justfile, pending: string, k: LineKind): (r: ParserState)
    requires !k.BodyLine?
    ensures r.doc.recipes == doc.recipes
    ensures r.doc.variables == doc.variables + (if k.VariableLine? then [k.variable] else [])
    ensures r.doc.aliases == doc.aliases + (if k.AliasLine? then [k.alias] else [])
    ensures r.open.Some? <==> k.HeaderLine?
    ensures r.open.Some? ==> r.open.value == Recipe(k.name, pending, k.params, k.deps, [], false)
    ensures r.pendingDoc == if k.CommentLine? then k.text else ""
  {
    match k
    case CommentLine(text) => ParserState(doc, None, text)
    case AliasLine(a) => ParserState(doc.(aliases := doc.aliases + [a]), None, "")
    case VariableLine(v) => ParserState(doc.(variables := doc.variables + [v]), None, "")
    case HeaderLine(name, params, deps) =>
      ParserState(doc, Some(Recipe(name, pending, params, deps, [], false)), "")
    case _ => ParserState(doc, None, "")
  }

  /** Feeds one line to the machine: a body line goes to the open recipe, any other
      line first closes it. */
  function Step(st: ParserState, line: string): (r: ParserState)
    ensures r.open.Some? <==> Classify(st.open.Some?, line).BodyLine? || Classify(st.open.Some?, line).HeaderLine?
  {
    var k := Classify(st.open.Some?, line);
    if k.BodyLine? then
      var rec := st.open.value;
      st.(open := Some(rec.(lines := rec.lines + [k.text])))
    else Enter(Flush(st), st.pendingDoc, k)
  }

  /** The machine after all of `lines`, fed left to right. */
  function Run(lines: seq<string>): ParserState {
    if lines == [] then Initial else Step(Run(lines[..|lines| - 1]), lines[|lines| - 1])
  }

  /** `Parse`: fails exactly when reading the input failed; otherwise the document
      after the last open recipe is flushed. */
  function Parse(lines: seq<string>, readFailed: bool): (r: Result<Justfile, ParseError>)
    ensures r.Failure? <==> readFailed
  {
    if readFailed then Failure(ReadError) else Success(Flush(Run(lines)))
  }

  // ---------------------------------------------------------------- one-step facts

  /** While a recipe is open an indented line is appended to it with one indentation
      unit removed, and nothing else changes. */
  lemma StepBodyLine(st: ParserState, line: string)
    requires st.open.Some? && IsBodyLine(line)
    ensures var r := Step(st, line);
      && r.doc == st.doc
      && r.pendingDoc == st.pendingDoc
      && r.open.Some?
      && r.open.value.(lines := st.open.value.lines) == st.open.value
      && r.open.value.lines == st.open.value.lines + [StripIndent(line)]
  {
  }

  /** Any other line closes the open recipe into the document. */
  lemma StepClosesRecipe(st: ParserState, line: string)
    requires !(st.open.Some? && IsBodyLine(line))
    ensures var r := Step(st, line);
      && r.doc.recipes == Flush(st).recipes
      && (r.open.Some? ==> r.open.value.lines == [] && r.open.value.doc == st.pendingDoc)
  {
  }
}
