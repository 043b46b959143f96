/** How whole statement lines are classified: which kind wins when several patterns
    match the same trimmed line, and what each kind carries. */
module ClassifyFacts {
  import opened Wrappers
  import opened Text
  import opened Patterns
  import opened Parser

  /** An assignment is never an alias line: the `alias` keyword branch fails on it. */
  lemma AssignmentNotAlias(name: string, s2: string, y: string)
    requires IsIdent(name) && All(s2, IsRegexSpace)
    ensures MatchAlias(name + (s2 + (":=" + y))).None?
  {
    var t := name + (s2 + (":=" + y));
    if StartsWith(t, "alias") && Span(t[5..], IsRegexSpace) > 0 {
      KeywordBranchFails("alias", name, s2, y);
    }
  }

  /** `name:=v` also matches the recipe-header pattern, with dependency text `=v`. */
  lemma AssignmentAlsoHeader(name: string, v: string)
    requires IsIdent(name) && All(v, NotNewline)
    ensures MatchHeader(name + (":=" + v)).Some?
  {
    var t := name + (":=" + v);
    assert t == name + ("" + (":" + ("" + ("=" + v))));
    assert All("=" + v, NotNewline) by {
      forall i | 0 <= i < |"=" + v| ensures NotNewline(("=" + v)[i]) {
        if i > 0 { AllAt(v, NotNewline, i - 1); }
      }
    }
    MatchHeaderComplete(t, name, "", "", "=" + v);
  }

  /** The variable rule is tried before the header rule: `x:=y` is a variable even
      though it also reads as a header `x` depending on `=y`. */
  lemma AssignmentWinsOverHeader(name: string, v: string)
    requires IsIdent(name) && |v| >= 1 && All(v, NotNewline) && !IsRegexSpace(v[0])
    ensures MatchHeader(name + (":=" + v)).Some?
    ensures ClassifyTrimmed(name + (":=" + v)) == VariableLine(VariableOf(VariableCapture(false, name, v)))
  {
    var t := name + (":=" + v);
    assert t[..0] == [] && t[0..] == t;
    assert t == name + ("" + (":=" + ("" + v)));
    VariableLineOf(t, [], name, [], [], v);
    AssignmentAlsoHeader(name, v);
  }

  /** Every alias line is classified as an alias, before the variable and header
      rules are consulted. */
  lemma AliasLineOf(t: string, s1: string, name: string, s2: string, s3: string, target: string, s4: string)
    requires AliasPieces(t, s1, name, s2, s3, target, s4)
    ensures ClassifyTrimmed(t) == AliasLine(Alias(name, target))
  {
    assert t[0] == 'a';
    ClassifyTrimmedStatement(t);
    MatchAliasComplete(t, s1, name, s2, s3, target, s4);
  }

  /** Every assignment-shaped line is a variable line, exported exactly when it has
      the `export` group, and declares the variable of its name and of the value the
      decomposition gives when that value starts with a non-space. */
  lemma VariableLineOf(t: string, e: string, name: string, s2: string, s3: string, v: string)
    requires VarPieces(t, e, name, s2, s3, v) && !IsRegexSpace(v[0])
    ensures ClassifyTrimmed(t) == VariableLine(VariableOf(VariableCapture(e != [], name, v)))
  {
    if e != [] {
      assert t[0] == e[0] == 'e';
      assert t[..5] != "alias" by {
        assert t[..5][0] == 'e';
      }
    } else {
      assert t[|e|..] == t;
      assert t[0] == name[0];
      AssignmentNotAlias(name, s2, s3 + v);
    }
    ClassifyTrimmedStatement(t);
    MatchVariableComplete(t, e, name, s2, s3, v);
  }

  /** What a trimmed assignment line stores: a value wrapped in backticks becomes the
      command between them with the backtick flag set; any other value is unquoted. */
  lemma VariableLineValue(t: string, e: string, name: string, s2: string, s3: string, v: string)
    requires VarPieces(t, e, name, s2, s3, v) && Unpadded(v)
    ensures ClassifyTrimmed(t).VariableLine?
    ensures var x := ClassifyTrimmed(t).variable;
      x.name == name && x.exported == (e != []) && WrittenAs(x, v)
  {
    VariableLineOf(t, e, name, s2, s3, v);
    VariableOfUnpadded(VariableCapture(e != [], name, v));
  }

  /** A captured value without surrounding whitespace is not changed by the trim. */
  lemma VariableOfUnpadded(c: VariableCapture)
    requires Unpadded(c.value)
    ensures WrittenAs(VariableOf(c), c.value)
  {
    TrimSpaceOfUnpadded(c.value);
  }

  // ---------------------------------------- the assignment cases of the parser's tests

  /** `name := v`, optionally after `export `, in the spacing the tests use. */
  lemma SpacedAssignment(e: string, name: string, v: string)
    requires e == "" || e == "export "
    requires IsIdent(name) && Unpadded(v) && |v| >= 1 && All(v, NotNewline)
    ensures VarPieces(e + (name + (" := " + v)), e, name, " ", " ", v)
  {
    var u := name + (" := " + v);
    CutAppend(e, u);
    assert u == name + (" " + (":=" + (" " + v)));
  }

  lemma AllNotNewlineQuoted(q: char, x: string)
    requires q != '\n' && All(x, NotNewline)
    ensures All(Quote(q, x), NotNewline)
  {
    forall i | 0 <= i < |Quote(q, x)| ensures NotNewline(Quote(q, x)[i]) {
      if 0 < i < |x| + 1 {
        AllAt(x, NotNewline, i - 1);
      }
    }
  }

  /** A double-quoted value is stored without its quotes, exported or not. */
  lemma QuotedAssignment(exported: bool, name: string, x: string)
    requires IsIdent(name) && All(x, NotNewline)
    ensures ClassifyTrimmed((if exported then "export " else "") + (name + (" := " + Quote('"', x))))
      == VariableLine(Variable(name, x, exported, false))
  {
    var e := if exported then "export " else "";
    AllNotNewlineQuoted('"', x);
    SpacedAssignment(e, name, Quote('"', x));
    VariableLineValue(e + (name + (" := " + Quote('"', x))), e, name, " ", " ", Quote('"', x));
    UnquoteQuote('"', x);
  }

  /** A backtick-wrapped value is stored as the bare command, flagged as one. */
  lemma CommandAssignment(name: string, cmd: string)
    requires IsIdent(name) && All(cmd, NotNewline)
    ensures ClassifyTrimmed(name + (" := " + Quote('`', cmd))) == VariableLine(Variable(name, cmd, false, true))
  {
    AllNotNewlineQuoted('`', cmd);
    SpacedAssignment("", name, Quote('`', cmd));
    assert "" + (name + (" := " + Quote('`', cmd))) == name + (" := " + Quote('`', cmd));
    VariableLineValue(name + (" := " + Quote('`', cmd)), "", name, " ", " ", Quote('`', cmd));
    var w := Quote('`', cmd);
    assert w[1..|w| - 1] == cmd;
  }

  // The four variable cases of the parser's tests. Each `*Text` lemma proves the
  // literal line equal to its pieces on its own: next to `ClassifyTrimmed` of a
  // literal, the solver unfolds the classification and runs out of resource.

  lemma QuotedValueCase()
    ensures ClassifyTrimmed("name := \"hello\"") == VariableLine(Variable("name", "hello", false, false))
  {
    QuotedValueText();
    QuotedAssignment(false, "name", "hello");
  }

  lemma QuotedValueText()
    ensures "name := \"hello\"" == "" + ("name" + (" := " + Quote('"', "hello")))
  {
  }

  lemma UnquotedValueCase()
    ensures ClassifyTrimmed("count := 42") == VariableLine(Variable("count", "42", false, false))
  {
    UnquotedValueText();
    SpacedAssignment("", "count", "42");
    VariableLineValue("count := 42", "", "count", " ", " ", "42");
  }

  lemma UnquotedValueText()
    ensures "count := 42" == "" + ("count" + (" := " + "42"))
  {
  }

  lemma ExportedValueCase()
    ensures ClassifyTrimmed("export PATH := \"/usr/bin\"") == VariableLine(Variable("PATH", "/usr/bin", true, false))
  {
    ExportedValueText();
    QuotedAssignment(true, "PATH", "/usr/bin");
  }

  lemma ExportedValueText()
    ensures "export PATH := \"/usr/bin\"" == "export " + ("PATH" + (" := " + Quote('"', "/usr/bin")))
  {
  }

  lemma BacktickValueCase()
    ensures ClassifyTrimmed("version := `git describe --tags`")
      == VariableLine(Variable("version", "git describe --tags", false, true))
  {
    BacktickValueText();
    CommandAssignment("version", "git describe --tags");
  }

  lemma BacktickValueText()
    ensures "version := `git describe --tags`" == "version" + (" := " + Quote('`', "git describe --tags"))
  {
  }

  lemma RegexSpaceIsSpace(s: string)
    requires All(s, IsRegexSpace)
    ensures All(s, IsSpace)
  {
    forall i | 0 <= i < |s| ensures IsSpace(s[i]) {
      AllAt(s, IsRegexSpace, i);
    }
  }

  /** A header line that is neither an alias nor a variable declares a recipe whose
      parameters are parsed from the parameter group and whose dependencies are the
      words after the colon. */
  lemma HeaderLineOf(t: string, name: string, g: string, s: string, d: string)
    requires HeaderPieces(t, name, g, s, d)
    requires MatchAlias(t).None? && MatchVariable(t).None?
    ensures ClassifyTrimmed(t) == HeaderLine(name, ParseParams(g), ParseDeps(d))
  {
    assert t[0] == name[0];
    ClassifyTrimmedStatement(t);
    MatchHeaderComplete(t, name, g, s, d);
    var d' := MatchHeader(t).value.deps;
    var pad := d[..|d| - |d'|];
    RegexSpaceIsSpace(pad);
    FieldsSkipsLeading(pad, d');
  }
}
