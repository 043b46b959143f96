/** The six fixed regular expressions of the justfile parser (parser.go:49-65), each
    written as a hand-coded matcher.

    Every matcher comes with a `...Pieces` predicate that transcribes the regular
    expression itself: the input is the concatenation of pieces, each drawn from the
    class the pattern names. The lemmas show that a matcher answers exactly when such a
    decomposition exists, and that the captures it returns are the ones Go's
    leftmost-first engine picks (greedy `\s*` before a value, the optional `export`
    group preferred when it can be taken).

    Regexp classes used below: `\s` is `IsRegexSpace` (no vertical tab), `.` is
    `NotNewline`, `[^:]` is `NotColon` (it does match a newline). */
module Patterns {
  import opened Wrappers
  import opened Text

  // ---------------------------------------------------------------- identifiers

  /** `[a-zA-Z_]` */
  predicate IsIdentStart(c: char) {
    ('a' <= c <= 'z') || ('A' <= c <= 'Z') || c == '_'
  }

  /** `[a-zA-Z0-9_-]` */
  predicate IsIdentChar(c: char) {
    IsIdentStart(c) || ('0' <= c <= '9') || c == '-'
  }

  /** `[a-zA-Z_][a-zA-Z0-9_-]*` matching the whole string. */
  predicate IsIdent(s: string) {
    |s| >= 1 && IsIdentStart(s[0]) && All(s[1..], IsIdentChar)
  }

  predicate NotColon(c: char) {
    c != ':'
  }

  /** Length of the identifier at the start of `s`, 0 when there is none. */
  function IdentLen(s: string): (n: nat)
    ensures n <= |s|
    ensures n > 0 ==> IsIdent(s[..n]) && (n < |s| ==> !IsIdentChar(s[n]))
    ensures n == 0 <==> (s == [] || !IsIdentStart(s[0]))
  {
    if s == [] || !IsIdentStart(s[0]) then 0
    else
      var n := 1 + Span(s[1..], IsIdentChar);
      assert s[..n][1..] == s[1..][..n - 1];
      n
  }

  /** An identifier followed by a non-identifier character is scanned whole. */
  lemma IdentLenOf(a: string, b: string)
    requires IsIdent(a)
    requires b == [] || !IsIdentChar(b[0])
    ensures IdentLen(a + b) == |a|
  {
    assert (a + b)[0] == a[0];
    assert (a + b)[1..] == a[1..] + b;
    SpanOfSplit(a[1..], b, IsIdentChar);
  }

  /** The text after the leading `\s*` run. */
  function SkipRegexSpace(s: string): (r: string)
    ensures |r| <= |s|
    ensures r == [] || !IsRegexSpace(r[0])
  {
    s[Span(s, IsRegexSpace)..]
  }

  lemma SkipRegexSpaceOf(a: string, b: string)
    requires All(a, IsRegexSpace)
    requires b == [] || !IsRegexSpace(b[0])
    ensures Span(a + b, IsRegexSpace) == |a|
    ensures SkipRegexSpace(a + b) == b
  {
    SkipSpan(a, b, IsRegexSpace);
  }

  /** An identifier never starts with whitespace, a colon or an equals sign. */
  lemma IdentHead(name: string, rest: string)
    requires IsIdent(name)
    ensures (name + rest)[0] == name[0]
    ensures !IsRegexSpace((name + rest)[0]) && (name + rest)[0] != ':'
  {
  }

  /** What follows an identifier inside a pattern: optional whitespace, then a literal
      that is not an identifier character. */
  lemma NotIdentAfter(s: string, rest: string)
    requires All(s, IsRegexSpace)
    requires rest != [] && !IsIdentChar(rest[0])
    ensures (s + rest)[0] == (if s == [] then rest[0] else s[0])
    ensures !IsIdentChar((s + rest)[0])
  {
    if s != [] {
      AllAt(s, IsRegexSpace, 0);
    }
  }

  // ------------------------------------------------- sectionSepRe  ^#\s*---.*---\s*$

  /** `# ---- ... ----` decomposed as the regexp reads it. */
  predicate SepPieces(t: string, s1: string, mid: string, s2: string) {
    && t == "#" + (s1 + ("---" + (mid + ("---" + s2))))
    && All(s1, IsRegexSpace)
    && All(mid, NotNewline)
    && All(s2, IsRegexSpace)
  }

  /** Matcher for `^#\s*---.*---\s*$`. Both `\s*` runs are forced to be maximal,
      because the dashes next to them are not whitespace. */
  predicate IsSectionSep(t: string) {
    && StartsWith(t, "#")
    && var u := SkipRegexSpace(t[1..]);
    && StartsWith(u, "---")
    && var r := u[3..];
    && var z := Rspan(r, IsRegexSpace);
    && z + 3 <= |r|
    && r[|r| - z - 3..|r| - z] == "---"
    && All(r[..|r| - z - 3], NotNewline)
  }

  /** The text after the first dashes: a newline-free middle, the closing dashes and
      trailing whitespace. */
  lemma SepTailSound(r: string) returns (mid: string, s2: string)
    requires var z := Rspan(r, IsRegexSpace);
      z + 3 <= |r| && r[|r| - z - 3..|r| - z] == "---" && All(r[..|r| - z - 3], NotNewline)
    ensures r == mid + ("---" + s2) && All(mid, NotNewline) && All(s2, IsRegexSpace)
  {
    var z := Rspan(r, IsRegexSpace);
    var a, b := |r| - z - 3, |r| - z;
    mid, s2 := r[..a], r[b..];
    SplitAt(r, a);
    SplitAt(r[a..], 3);
    assert r[a..][..3] == r[a..b] && r[a..][3..] == s2;
  }

  lemma SectionSepSound(t: string) returns (s1: string, mid: string, s2: string)
    requires IsSectionSep(t)
    ensures SepPieces(t, s1, mid, s2)
  {
    var w := t[1..];
    var k := Span(w, IsRegexSpace);
    var u := w[k..];
    mid, s2 := SepTailSound(u[3..]);
    StartsWithSplit(u, "---");
    SplitAt(w, k);
    StartsWithSplit(t, "#");
    s1 := w[..k];
  }

  lemma SectionSepComplete(t: string, s1: string, mid: string, s2: string)
    requires SepPieces(t, s1, mid, s2)
    ensures IsSectionSep(t)
  {
    var r := mid + ("---" + s2);
    var u := "---" + r;
    CutAppend("#", s1 + u);
    SkipRegexSpaceOf(s1, u);
    CutAppend("---", r);
    var front := mid + "---";
    assert r == front + s2;
    SkipRspan(front, s2, IsRegexSpace);
    CutAppend(mid, "---");
  }

  // ------------------------------------ value tail  \s*(.+)$  (variable assignment)

  /** `\s*(.+)$`: optional whitespace, then a non-empty newline-free value. */
  predicate ValuePieces(y: string, s: string, v: string) {
    y == s + v && All(s, IsRegexSpace) && |v| >= 1 && All(v, NotNewline)
  }

  /** Capture of `\s*(.+)$`. The greedy `\s*` takes all leading whitespace unless that
      would leave `(.+)` empty; then it gives back exactly one character. */
  function ValueCapture(y: string): Option<string> {
    var k := Span(y, IsRegexSpace);
    if k < |y| then
      if All(y[k..], NotNewline) then Some(y[k..]) else None
    else if |y| > 0 && y[|y| - 1] != '\n' then Some(y[|y| - 1..])
    else None
  }

  lemma ValueCaptureSound(y: string)
    requires ValueCapture(y).Some?
    ensures var v := ValueCapture(y).value;
      ValuePieces(y, y[..|y| - |v|], v) && (|v| > 1 ==> !IsRegexSpace(v[0]))
  {
    var v := ValueCapture(y).value;
    assert y == y[..|y| - |v|] + v;
  }

  /** Whenever the tail decomposes, the capture exists and is the shortest value. */
  lemma ValueCaptureComplete(y: string, s: string, v: string)
    requires ValuePieces(y, s, v)
    ensures ValueCapture(y).Some?
    ensures |ValueCapture(y).value| <= |v|
  {
    SpanAtLeast(s, v, IsRegexSpace);
    var k := Span(y, IsRegexSpace);
    if k < |y| {
      assert y[k..] == v[k - |s|..];
      forall i | 0 <= i < |y[k..]| ensures NotNewline(y[k..][i]) {
        AllAt(v, NotNewline, k - |s| + i);
      }
    } else {
      assert y[|y| - 1] == v[|v| - 1];
      AllAt(v, NotNewline, |v| - 1);
    }
  }

  /** A value that starts with a non-space is captured whole, after all the whitespace. */
  lemma ValueCaptureOf(s: string, v: string)
    requires ValuePieces(s + v, s, v) && !IsRegexSpace(v[0])
    ensures ValueCapture(s + v) == Some(v)
  {
    SkipSpan(s, v, IsRegexSpace);
  }

  // ----------------------------- `(ident)\s*:=` shared by the variable and alias patterns

  /** The text after `\s*:=`, when `w` starts with optional whitespace and `:=`. */
  function AfterAssignOp(w: string): Option<string> {
    var x := SkipRegexSpace(w);
    if StartsWith(x, ":=") then Some(x[2..]) else None
  }

  lemma AfterAssignOpSound(w: string) returns (s: string)
    requires AfterAssignOp(w).Some?
    ensures w == s + (":=" + AfterAssignOp(w).value) && All(s, IsRegexSpace)
  {
    var k := Span(w, IsRegexSpace);
    s := w[..k];
    StartsWithSplit(w[k..], ":=");
    SplitAt(w, k);
  }

  lemma AfterAssignOpComplete(s: string, y: string)
    requires All(s, IsRegexSpace)
    ensures AfterAssignOp(s + (":=" + y)) == Some(y)
  {
    SkipRegexSpaceOf(s, ":=" + y);
    CutAppend(":=", y);
  }

  /** `(ident)\s*:=` at the start of `u`: the identifier and the text after `:=`. */
  function NameAndOp(u: string): Option<(string, string)> {
    var n := IdentLen(u);
    if n == 0 then None
    else
      match AfterAssignOp(u[n..])
      case None => None
      case Some(y) => Some((u[..n], y))
  }

  lemma NameAndOpSound(u: string) returns (s: string)
    requires NameAndOp(u).Some?
    ensures var p := NameAndOp(u).value;
      u == p.0 + (s + (":=" + p.1)) && IsIdent(p.0) && All(s, IsRegexSpace)
  {
    var n := IdentLen(u);
    s := AfterAssignOpSound(u[n..]);
    SplitAt(u, n);
  }

  lemma NameAndOpComplete(name: string, s: string, y: string)
    requires IsIdent(name) && All(s, IsRegexSpace)
    ensures NameAndOp(name + (s + (":=" + y))) == Some((name, y))
  {
    var w := s + (":=" + y);
    NotIdentAfter(s, ":=" + y);
    IdentLenOf(name, w);
    CutAppend(name, w);
    AfterAssignOpComplete(s, y);
  }

  // ---------------- varAssignRe  ^(export\s+)?([a-zA-Z_][a-zA-Z0-9_-]*)\s*:=\s*(.+)$

  datatype VariableCapture = VariableCapture(exported: bool, name: string, value: string)

  /** The optional group `(export\s+)?`. */
  predicate ExportGroup(e: string) {
    e == [] || (|e| > 6 && e[..6] == "export" && All(e[6..], IsRegexSpace))
  }

  /** `name\s*:=\s*(.+)$` */
  predicate AssignPieces(u: string, name: string, s2: string, s3: string, v: string) {
    && u == name + (s2 + (":=" + (s3 + v)))
    && IsIdent(name)
    && All(s2, IsRegexSpace)
    && ValuePieces(s3 + v, s3, v)
  }

  predicate VarPieces(t: string, e: string, name: string, s2: string, s3: string, v: string) {
    && ExportGroup(e)
    && |e| <= |t|
    && t[..|e|] == e
    && AssignPieces(t[|e|..], name, s2, s3, v)
  }

  /** Matcher for the part after the optional `export` group. */
  function MatchAssignment(u: string, exported: bool): Option<VariableCapture> {
    match NameAndOp(u)
    case None => None
    case Some(p) =>
      match ValueCapture(p.1)
      case None => None
      case Some(v) => Some(VariableCapture(exported, p.0, v))
  }

  /** Matcher for `varAssignRe`: the `export` branch is tried first and, when it
      cannot complete, the whole line is matched without it. */
  function MatchVariable(t: string): Option<VariableCapture> {
    var viaExport :=
      if StartsWith(t, "export") && Span(t[6..], IsRegexSpace) > 0
      then MatchAssignment(SkipRegexSpace(t[6..]), true)
      else None;
    if viaExport.Some? then viaExport else MatchAssignment(t, false)
  }

  lemma MatchAssignmentSound(u: string, exported: bool) returns (s2: string, s3: string)
    requires MatchAssignment(u, exported).Some?
    ensures var c := MatchAssignment(u, exported).value;
      && c.exported == exported
      && AssignPieces(u, c.name, s2, s3, c.value)
      && (|c.value| > 1 ==> !IsRegexSpace(c.value[0]))
  {
    var y := NameAndOp(u).value.1;
    s2 := NameAndOpSound(u);
    ValueCaptureSound(y);
    s3 := y[..|y| - |ValueCapture(y).value|];
  }

  lemma MatchAssignmentComplete(u: string, exported: bool, name: string, s2: string, s3: string, v: string)
    requires AssignPieces(u, name, s2, s3, v)
    ensures MatchAssignment(u, exported).Some?
    ensures MatchAssignment(u, exported).value.name == name
    ensures |MatchAssignment(u, exported).value.value| <= |v|
    ensures !IsRegexSpace(v[0]) ==> MatchAssignment(u, exported) == Some(VariableCapture(exported, name, v))
  {
    NameAndOpComplete(name, s2, s3 + v);
    ValueCaptureComplete(s3 + v, s3, v);
    if !IsRegexSpace(v[0]) {
      ValueCaptureOf(s3, v);
    }
  }

  /** A keyword branch (`export\s+`, `alias\s+`) tried on an assignment `name\s*:=...`
      can only get past its whitespace when the name is the keyword itself, and then
      what follows the whitespace is `:=`, where no identifier starts. */
  lemma KeywordBranchFails(kw: string, name: string, s2: string, y: string)
    requires |kw| >= 1 && All(kw, IsIdentStart) && IsIdent(name) && All(s2, IsRegexSpace)
    requires var t := name + (s2 + (":=" + y));
      StartsWith(t, kw) && Span(t[|kw|..], IsRegexSpace) > 0
    ensures NameAndOp(SkipRegexSpace((name + (s2 + (":=" + y)))[|kw|..])).None?
  {
    var w := s2 + (":=" + y);
    var t := name + w;
    NotIdentAfter(s2, ":=" + y);
    IdentLenOf(name, w);
    StartsWithSplit(t, kw);
    assert IsIdent(kw) by {
      forall i | 0 <= i < |kw[1..]| ensures IsIdentChar(kw[1..][i]) {
        AllAt(kw, IsIdentStart, i + 1);
      }
    }
    assert t[|kw|..][0] == t[|kw|];
    IdentLenOf(kw, t[|kw|..]);
    CutAppend(name, w);
    SkipRegexSpaceOf(s2, ":=" + y);
  }

  /** The `export` branch: keyword, whitespace, then an assignment. */
  lemma ExportBranchSound(t: string) returns (e: string)
    requires StartsWith(t, "export") && Span(t[6..], IsRegexSpace) > 0
    ensures ExportGroup(e) && |e| <= |t| && t[..|e|] == e
    ensures t[|e|..] == SkipRegexSpace(t[6..])
  {
    var k := 6 + Span(t[6..], IsRegexSpace);
    e := t[..k];
    assert e[..6] == t[..6];
    assert e[6..] == t[6..][..k - 6];
  }

  lemma MatchVariableSound(t: string) returns (e: string, s2: string, s3: string)
    requires MatchVariable(t).Some?
    ensures var c := MatchVariable(t).value;
      && VarPieces(t, e, c.name, s2, s3, c.value)
      && (c.exported <==> e != [])
      && (|c.value| > 1 ==> !IsRegexSpace(c.value[0]))
  {
    if StartsWith(t, "export") && Span(t[6..], IsRegexSpace) > 0
      && MatchAssignment(SkipRegexSpace(t[6..]), true).Some?
    {
      e := ExportBranchSound(t);
      s2, s3 := MatchAssignmentSound(t[|e|..], true);
    } else {
      s2, s3 := MatchAssignmentSound(t, false);
      e := [];
      assert t[..0] == [] && t[0..] == t;
    }
  }

  /** Without an `export` group only the plain branch can match: the `export` branch
      fails on every assignment that does not have the group. */
  lemma PlainBranchOnly(name: string, s2: string, y: string)
    requires IsIdent(name) && All(s2, IsRegexSpace)
    ensures MatchVariable(name + (s2 + (":=" + y))) == MatchAssignment(name + (s2 + (":=" + y)), false)
  {
    var t := name + (s2 + (":=" + y));
    if StartsWith(t, "export") && Span(t[6..], IsRegexSpace) > 0 {
      KeywordBranchFails("export", name, s2, y);
    }
  }

  /** Any decomposition makes the line a variable, exported exactly when it has the
      `export` group, with the decomposition's name and the shortest value; the value
      is exactly `v` when `v` starts with a non-space. */
  lemma MatchVariableComplete(t: string, e: string, name: string, s2: string, s3: string, v: string)
    requires VarPieces(t, e, name, s2, s3, v)
    ensures MatchVariable(t).Some?
    ensures MatchVariable(t).value.exported == (e != [])
    ensures MatchVariable(t).value.name == name && |MatchVariable(t).value.value| <= |v|
    ensures !IsRegexSpace(v[0]) ==> MatchVariable(t) == Some(VariableCapture(e != [], name, v))
  {
    var rest := t[|e|..];
    if e != [] {
      var sp := e[6..];
      assert t == e + rest;
      assert e == "export" + sp;
      assert t == "export" + (sp + rest);
      CutAppend("export", sp + rest);
      IdentHead(name, s2 + (":=" + (s3 + v)));
      SkipRegexSpaceOf(sp, rest);
      AllAt(sp, IsRegexSpace, 0);
      MatchAssignmentComplete(rest, true, name, s2, s3, v);
    } else {
      assert rest == t;
      PlainBranchOnly(name, s2, s3 + v);
      MatchAssignmentComplete(t, false, name, s2, s3, v);
    }
  }

  // ------------------------------- aliasRe  ^alias\s+(ident)\s*:=\s*(ident)\s*$

  datatype AliasCapture = AliasCapture(name: string, target: string)

  predicate AliasPieces(t: string, s1: string, name: string, s2: string, s3: string, target: string, s4: string) {
    && t == "alias" + (s1 + (name + (s2 + (":=" + (s3 + (target + s4))))))
    && |s1| >= 1 && All(s1, IsRegexSpace)
    && IsIdent(name)
    && All(s2, IsRegexSpace)
    && All(s3, IsRegexSpace)
    && IsIdent(target)
    && All(s4, IsRegexSpace)
  }

  /** `\s*(ident)\s*$`: the alias target after `:=`. */
  function AliasTarget(y: string): Option<string> {
    var z := SkipRegexSpace(y);
    var m := IdentLen(z);
    if m == 0 || !All(z[m..], IsRegexSpace) then None else Some(z[..m])
  }

  /** Matcher for `aliasRe`. No backtracking is possible: every whitespace run is
      followed by a non-space and every identifier by a non-identifier character. */
  function MatchAlias(t: string): Option<AliasCapture> {
    if !StartsWith(t, "alias") || Span(t[5..], IsRegexSpace) == 0 then None
    else
      match NameAndOp(SkipRegexSpace(t[5..]))
      case None => None
      case Some(p) =>
        match AliasTarget(p.1)
        case None => None
        case Some(target) => Some(AliasCapture(p.0, target))
  }

  lemma AliasTargetSound(y: string) returns (s3: string, s4: string)
    requires AliasTarget(y).Some?
    ensures y == s3 + (AliasTarget(y).value + s4)
    ensures All(s3, IsRegexSpace) && IsIdent(AliasTarget(y).value) && All(s4, IsRegexSpace)
  {
    var k := Span(y, IsRegexSpace);
    var z := y[k..];
    var m := IdentLen(z);
    SplitAt(z, m);
    SplitAt(y, k);
    s3, s4 := y[..k], z[m..];
  }

  lemma AliasTargetComplete(s3: string, target: string, s4: string)
    requires All(s3, IsRegexSpace) && IsIdent(target) && All(s4, IsRegexSpace)
    ensures AliasTarget(s3 + (target + s4)) == Some(target)
  {
    IdentHead(target, s4);
    SkipRegexSpaceOf(s3, target + s4);
    if s4 != [] {
      AllAt(s4, IsRegexSpace, 0);
    }
    IdentLenOf(target, s4);
    CutAppend(target, s4);
  }

  lemma MatchAliasSound(t: string) returns (s1: string, s2: string, s3: string, s4: string)
    requires MatchAlias(t).Some?
    ensures var c := MatchAlias(t).value;
      AliasPieces(t, s1, c.name, s2, s3, c.target, s4)
  {
    var u := t[5..];
    var k := Span(u, IsRegexSpace);
    var v := u[k..];
    var y := NameAndOp(v).value.1;
    s2 := NameAndOpSound(v);
    s3, s4 := AliasTargetSound(y);
    SplitAt(u, k);
    StartsWithSplit(t, "alias");
    s1 := u[..k];
  }

  lemma MatchAliasComplete(t: string, s1: string, name: string, s2: string, s3: string, target: string, s4: string)
    requires AliasPieces(t, s1, name, s2, s3, target, s4)
    ensures MatchAlias(t) == Some(AliasCapture(name, target))
  {
    var y := s3 + (target + s4);
    var w := s2 + (":=" + y);
    var v := name + w;
    CutAppend("alias", s1 + v);
    IdentHead(name, w);
    SkipRegexSpaceOf(s1, v);
    NameAndOpComplete(name, s2, y);
    AliasTargetComplete(s3, target, s4);
  }

  // ------------------------- recipeHeaderRe  ^(ident)(\s+[^:]+)?:\s*(.*)$

  datatype HeaderCapture = HeaderCapture(name: string, params: string, deps: string)

  /** The optional group `(\s+[^:]+)?`: empty, or at least two colon-free characters
      starting with whitespace. */
  predicate ParamGroup(g: string) {
    g == [] || (|g| >= 2 && IsRegexSpace(g[0]) && All(g, NotColon))
  }

  predicate HeaderPieces(t: string, name: string, g: string, s: string, d: string) {
    && t == name + (g + (":" + (s + d)))
    && IsIdent(name)
    && ParamGroup(g)
    && All(s, IsRegexSpace)
    && All(d, NotNewline)
  }

  /** Length of the parameter group at the start of `u` (the text after the name), or
      `None` when neither a group nor the colon can follow the name. */
  function ParamGroupLen(u: string): (r: Option<nat>)
    ensures r.Some? ==> r.value < |u| && u[r.value] == ':'
  {
    if u != [] && u[0] == ':' then Some(0)
    else if u != [] && IsRegexSpace(u[0]) && 2 <= Span(u, NotColon) < |u| then Some(Span(u, NotColon))
    else None
  }

  /** `(\s+[^:]+)?:\s*(.*)$` after the name: the parameter text and the dependency
      capture, which starts after all leading whitespace. */
  function HeaderTail(u: string): Option<(string, string)> {
    match ParamGroupLen(u)
    case None => None
    case Some(c) =>
      var d := SkipRegexSpace(u[c + 1..]);
      if All(d, NotNewline) then Some((u[..c], d)) else None
  }

  /** Matcher for `recipeHeaderRe`. The parameter group, when present, runs exactly to
      the first colon. */
  function MatchHeader(t: string): Option<HeaderCapture> {
    var n := IdentLen(t);
    if n == 0 then None
    else
      match HeaderTail(t[n..])
      case None => None
      case Some(p) => Some(HeaderCapture(t[..n], p.0, p.1))
  }

  lemma ParamGroupLenOf(g: string, rest: string)
    requires ParamGroup(g)
    ensures ParamGroupLen(g + (":" + rest)) == Some(|g|)
  {
    var u := g + (":" + rest);
    if g == [] {
      assert u == ":" + rest;
    } else {
      assert u[0] == g[0];
      SpanOfSplit(g, ":" + rest, NotColon);
    }
  }

  lemma HeaderTailSound(u: string) returns (s: string)
    requires HeaderTail(u).Some?
    ensures var p := HeaderTail(u).value;
      && u == p.0 + (":" + (s + p.1))
      && ParamGroup(p.0) && All(s, IsRegexSpace) && All(p.1, NotNewline)
      && (p.1 == [] || !IsRegexSpace(p.1[0]))
  {
    var c := ParamGroupLen(u).value;
    var rest := u[c + 1..];
    var k := Span(rest, IsRegexSpace);
    SplitAt(rest, k);
    SplitAt(u, c);
    SplitAt(u[c..], 1);
    assert u[c..][1..] == rest && u[c..][..1] == ":";
    if c > 0 {
      assert u[..c][0] == u[0];
    }
    s := rest[..k];
  }

  lemma MatchHeaderSound(t: string) returns (s: string)
    requires MatchHeader(t).Some?
    ensures var h := MatchHeader(t).value;
      && HeaderPieces(t, h.name, h.params, s, h.deps)
      && (h.deps == [] || !IsRegexSpace(h.deps[0]))
  {
    var n := IdentLen(t);
    s := HeaderTailSound(t[n..]);
    SplitAt(t, n);
  }

  /** Skipping leading whitespace in `s + d` removes `s` and a whitespace prefix of `d`. */
  lemma SkipRegexSpaceOfPadded(s: string, d: string)
    requires All(s, IsRegexSpace)
    ensures var d' := SkipRegexSpace(s + d);
      |d'| <= |d| && d == d[..|d| - |d'|] + d' && All(d[..|d| - |d'|], IsRegexSpace)
  {
    var rest := s + d;
    SpanAtLeast(s, d, IsRegexSpace);
    var k := Span(rest, IsRegexSpace);
    var d' := rest[k..];
    assert d' == d[k - |s|..];
    SplitAt(d, k - |s|);
    var pad := d[..k - |s|];
    forall i | 0 <= i < |pad| ensures IsRegexSpace(pad[i]) {
      assert pad[i] == rest[..k][|s| + i];
      AllAt(rest[..k], IsRegexSpace, |s| + i);
    }
  }

  lemma HeaderTailOf(g: string, rest: string)
    requires ParamGroup(g) && All(SkipRegexSpace(rest), NotNewline)
    ensures HeaderTail(g + (":" + rest)) == Some((g, SkipRegexSpace(rest)))
  {
    var u := g + (":" + rest);
    ParamGroupLenOf(g, rest);
    CutAppend(g, ":" + rest);
    assert u[|g| + 1..] == rest;
  }

  lemma HeaderTailComplete(g: string, s: string, d: string)
    requires ParamGroup(g) && All(s, IsRegexSpace) && All(d, NotNewline)
    ensures var u := g + (":" + (s + d));
      && HeaderTail(u).Some?
      && HeaderTail(u).value.0 == g
      && var d' := HeaderTail(u).value.1;
      |d'| <= |d| && d == d[..|d| - |d'|] + d' && All(d[..|d| - |d'|], IsRegexSpace)
  {
    SkipRegexSpaceOfPadded(s, d);
    var d' := SkipRegexSpace(s + d);
    AllSuffix(d, |d| - |d'|, NotNewline);
    HeaderTailOf(g, s + d);
  }

  /** Any decomposition of a header yields the same name and parameter text; the
      dependency capture is the decomposition's tail without its leading whitespace. */
  lemma MatchHeaderComplete(t: string, name: string, g: string, s: string, d: string)
    requires HeaderPieces(t, name, g, s, d)
    ensures MatchHeader(t).Some?
    ensures MatchHeader(t).value.name == name
    ensures MatchHeader(t).value.params == g
    ensures var d' := MatchHeader(t).value.deps;
      |d'| <= |d| && d == d[..|d| - |d'|] + d' && All(d[..|d| - |d'|], IsRegexSpace)
  {
    var u := g + (":" + (s + d));
    if g != [] {
      assert u[0] == g[0];
    }
    IdentLenOf(name, u);
    CutAppend(name, u);
    HeaderTailComplete(g, s, d);
  }

  // -------------------------------------------- variadicParamRe  ^([*+])(ident)$

  /** Matcher for `variadicParamRe`: the marker character and the name. The pattern
      has no choice points, so the definition is the pattern. */
  function MatchVariadic(tok: string): Option<(char, string)> {
    if |tok| >= 2 && (tok[0] == '*' || tok[0] == '+') && IsIdent(tok[1..])
    then Some((tok[0], tok[1..]))
    else None
  }

  predicate VariadicPieces(tok: string, marker: char, name: string) {
    tok == [marker] + name && (marker == '*' || marker == '+') && IsIdent(name)
  }

  lemma MatchVariadicSound(tok: string)
    requires MatchVariadic(tok).Some?
    ensures VariadicPieces(tok, MatchVariadic(tok).value.0, MatchVariadic(tok).value.1)
  {
    assert tok == [tok[0]] + tok[1..];
  }

  lemma MatchVariadicComplete(tok: string, marker: char, name: string)
    requires VariadicPieces(tok, marker, name)
    ensures MatchVariadic(tok) == Some((marker, name))
  {
    assert tok[1..] == name;
  }

  // ------------------------------------------------ defaultParamRe  ^(ident)=(.+)$

  predicate DefaultPieces(tok: string, name: string, v: string) {
    tok == name + ("=" + v) && IsIdent(name) && |v| >= 1 && All(v, NotNewline)
  }

  /** Matcher for `defaultParamRe`: the identifier is forced to end at the `=`. */
  function MatchDefault(tok: string): Option<(string, string)> {
    var n := IdentLen(tok);
    if 0 < n && n + 1 < |tok| && tok[n] == '=' && All(tok[n + 1..], NotNewline)
    then Some((tok[..n], tok[n + 1..]))
    else None
  }

  lemma MatchDefaultSound(tok: string)
    requires MatchDefault(tok).Some?
    ensures DefaultPieces(tok, MatchDefault(tok).value.0, MatchDefault(tok).value.1)
  {
    var n := IdentLen(tok);
    assert tok == tok[..n] + ("=" + tok[n + 1..]);
  }

  lemma MatchDefaultComplete(tok: string, name: string, v: string)
    requires DefaultPieces(tok, name, v)
    ensures MatchDefault(tok) == Some((name, v))
  {
    IdentLenOf(name, "=" + v);
    CutAppend(name, "=" + v);
    CutAppend("=", v);
  }
}
