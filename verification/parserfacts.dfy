/** A declarative description of what `Parser.Parse` produces, and the proof that the
    line machine computes it.

    The reference reads the input as a sequence of line kinds. A line is classified
    knowing only whether the line before it was a header or a body line (so that a
    recipe is open). From the kinds alone:
    - the variables and aliases are those of the variable and alias lines, in order;
    - there is one recipe per header line, in order; its doc is the text of the comment
      line directly above the header (or empty), and its body is the maximal run of
      body lines directly below it. */
module ParserFacts {
  import opened Wrappers
  import opened Text
  import opened Patterns
  import opened Parser

  // ---------------------------------------------------------------- reference

  /** A recipe is open after these lines: the last one is a header or a body line. */
  predicate OpenAfter(ks: seq<LineKind>) {
    ks != [] && (ks[|ks| - 1].BodyLine? || ks[|ks| - 1].HeaderLine?)
  }

  /** The kind of every line. */
  function Kinds(lines: seq<string>): (ks: seq<LineKind>)
    ensures |ks| == |lines|
  {
    if lines == [] then []
    else
      var before := Kinds(lines[..|lines| - 1]);
      before + [Classify(OpenAfter(before), lines[|lines| - 1])]
  }

  /** The doc comment waiting after these lines: the text of a comment on the last line. */
  function PendingAfter(ks: seq<LineKind>): string {
    if ks != [] && ks[|ks| - 1].CommentLine? then ks[|ks| - 1].text else ""
  }

  function VariablesOf(ks: seq<LineKind>): seq<Variable> {
    if ks == [] then []
    else
      var last := ks[|ks| - 1];
      VariablesOf(ks[..|ks| - 1]) + (if last.VariableLine? then [last.variable] else [])
  }

  function AliasesOf(ks: seq<LineKind>): seq<Alias> {
    if ks == [] then []
    else
      var last := ks[|ks| - 1];
      AliasesOf(ks[..|ks| - 1]) + (if last.AliasLine? then [last.alias] else [])
  }

  /** The texts of the body lines starting at `j`, up to the first line of another kind. */
  function BodyRun(ks: seq<LineKind>, j: nat): seq<string>
    requires j <= |ks|
    decreases |ks| - j
  {
    if j == |ks| || !ks[j].BodyLine? then [] else [ks[j].text] + BodyRun(ks, j + 1)
  }

  /** The recipe declared by the header at `i`. */
  function RecipeAt(ks: seq<LineKind>, i: nat): Recipe
    requires i < |ks| && ks[i].HeaderLine?
  {
    Recipe(ks[i].name, PendingAfter(ks[..i]), ks[i].params, ks[i].deps, BodyRun(ks, i + 1), false)
  }

  /** The recipes of the headers at `i` and after, in order. */
  function RecipesFrom(ks: seq<LineKind>, i: nat): seq<Recipe>
    requires i <= |ks|
    decreases |ks| - i
  {
    if i == |ks| then []
    else (if ks[i].HeaderLine? then [RecipeAt(ks, i)] else []) + RecipesFrom(ks, i + 1)
  }

  /** The document the reference assigns to the input. */
  function Expected(lines: seq<string>): Justfile {
    var ks := Kinds(lines);
    Justfile(VariablesOf(ks), RecipesFrom(ks, 0), AliasesOf(ks))
  }

  // ---------------------------------------------------------------- snoc lemmas

  predicate AllBodyFrom(ks: seq<LineKind>, j: nat) {
    forall m :: j <= m < |ks| ==> ks[m].BodyLine?
  }

  /** Appending a line does not change the body run of a header followed by some
      other kind of line. */
  lemma {:induction false} BodyRunStable(ks: seq<LineKind>, k: LineKind, j: nat, m: nat)
    requires j <= m < |ks| && !ks[m].BodyLine?
    ensures BodyRun(ks + [k], j) == BodyRun(ks, j)
    decreases m - j
  {
    var ks' := ks + [k];
    assert ks'[j] == ks[j];
    if j < m && ks[j].BodyLine? {
      BodyRunStable(ks, k, j + 1, m);
    }
  }

  /** Appending a non-body line does not change any body run. */
  lemma {:induction false} BodyRunSnocOther(ks: seq<LineKind>, k: LineKind, j: nat)
    requires j <= |ks| && !k.BodyLine?
    ensures BodyRun(ks + [k], j) == BodyRun(ks, j)
    decreases |ks| - j
  {
    var ks' := ks + [k];
    if j < |ks| {
      assert ks'[j] == ks[j];
      if ks[j].BodyLine? {
        BodyRunSnocOther(ks, k, j + 1);
      }
    } else {
      assert ks'[j] == k;
    }
  }

  /** Appending a body line to a run that reaches the end extends that run. */
  lemma {:induction false} BodyRunSnocBody(ks: seq<LineKind>, b: string, j: nat)
    requires j <= |ks| && AllBodyFrom(ks, j)
    ensures BodyRun(ks + [BodyLine(b)], j) == BodyRun(ks, j) + [b]
    decreases |ks| - j
  {
    var ks' := ks + [BodyLine(b)];
    if j < |ks| {
      assert ks'[j] == ks[j];
      BodyRunSnocBody(ks, b, j + 1);
    } else {
      assert ks'[j] == BodyLine(b);
      assert ks'[j + 1..] == [];
    }
  }

  lemma {:induction false} NoRecipesInBody(ks: seq<LineKind>, j: nat)
    requires j <= |ks| && AllBodyFrom(ks, j)
    ensures RecipesFrom(ks, j) == []
    decreases |ks| - j
  {
    if j < |ks| {
      NoRecipesInBody(ks, j + 1);
    }
  }

  /** The header at `i` of a longer sequence whose body run is unchanged declares the
      same recipe. */
  lemma RecipeAtSnoc(ks: seq<LineKind>, k: LineKind, i: nat)
    requires i < |ks| && ks[i].HeaderLine?
    requires BodyRun(ks + [k], i + 1) == BodyRun(ks, i + 1)
    ensures RecipeAt(ks + [k], i) == RecipeAt(ks, i)
  {
    assert (ks + [k])[..i] == ks[..i];
  }

  /** Appending a non-body line adds the recipe of a new header, if it is one, and
      leaves every earlier recipe as it was. */
  lemma {:induction false} RecipesFromSnocOther(ks: seq<LineKind>, k: LineKind, i: nat)
    requires i <= |ks| && !k.BodyLine?
    ensures RecipesFrom(ks + [k], i) ==
      RecipesFrom(ks, i) + (if k.HeaderLine? then [RecipeAt(ks + [k], |ks|)] else [])
    decreases |ks| - i
  {
    var ks' := ks + [k];
    if i < |ks| {
      assert ks'[i] == ks[i];
      RecipesFromSnocOther(ks, k, i + 1);
      if ks[i].HeaderLine? {
        BodyRunSnocOther(ks, k, i + 1);
        RecipeAtSnoc(ks, k, i);
      }
    } else {
      assert ks'[i] == k;
    }
  }

  /** The last recipe with one more body line. */
  function ExtendLast(rs: seq<Recipe>, b: string): seq<Recipe>
    requires rs != []
  {
    var last := rs[|rs| - 1];
    rs[..|rs| - 1] + [last.(lines := last.lines + [b])]
  }

  /** Appending a body line while the header at `h` is open extends that header's
      recipe, which is the last one. */
  lemma {:induction false} RecipesFromSnocBody(ks: seq<LineKind>, b: string, h: nat, i: nat)
    requires h < |ks| && ks[h].HeaderLine? && AllBodyFrom(ks, h + 1) && i <= h
    ensures RecipesFrom(ks, i) != []
    ensures RecipesFrom(ks + [BodyLine(b)], i) == ExtendLast(RecipesFrom(ks, i), b)
    decreases h - i
  {
    var ks' := ks + [BodyLine(b)];
    assert ks'[i] == ks[i];
    if i == h {
      NoRecipesInBody(ks, h + 1);
      assert AllBodyFrom(ks', h + 1);
      NoRecipesInBody(ks', h + 1);
      BodyRunSnocBody(ks, b, h + 1);
      assert ks'[..h] == ks[..h];
    } else {
      RecipesFromSnocBody(ks, b, h, i + 1);
      var rest := RecipesFrom(ks, i + 1);
      if ks[i].HeaderLine? {
        BodyRunStable(ks, BodyLine(b), i + 1, h);
        RecipeAtSnoc(ks, BodyLine(b), i);
        assert ([RecipeAt(ks, i)] + rest)[..|rest|] == [RecipeAt(ks, i)] + rest[..|rest| - 1];
      } else {
        assert [] + rest == rest;
      }
    }
  }

  // ---------------------------------------------------------------- the invariant

  /** What the line machine holds after `lines`, in terms of the reference. */
  predicate Invariant(st: ParserState, ks: seq<LineKind>) {
    && (st.open.Some? <==> OpenAfter(ks))
    && st.pendingDoc == PendingAfter(ks)
    && st.doc.variables == VariablesOf(ks)
    && st.doc.aliases == AliasesOf(ks)
    && Flush(st).recipes == RecipesFrom(ks, 0)
    && (st.open.Some? ==>
          var h := |ks| - 1 - |st.open.value.lines|;
          0 <= h && ks[h].HeaderLine? && AllBodyFrom(ks, h + 1))
  }

  lemma InvariantStepBody(st: ParserState, ks: seq<LineKind>, line: string)
    requires Invariant(st, ks)
    requires Classify(st.open.Some?, line).BodyLine?
    ensures Invariant(Step(st, line), ks + [Classify(st.open.Some?, line)])
  {
    var b := StripIndent(line);
    var ks' := ks + [BodyLine(b)];
    var h := |ks| - 1 - |st.open.value.lines|;
    RecipesFromSnocBody(ks, b, h, 0);
    assert ks'[..|ks|] == ks;
    assert AllBodyFrom(ks', h + 1);
  }

  lemma InvariantStepOther(st: ParserState, ks: seq<LineKind>, line: string)
    requires Invariant(st, ks)
    requires !Classify(st.open.Some?, line).BodyLine?
    ensures Invariant(Step(st, line), ks + [Classify(st.open.Some?, line)])
  {
    var k := Classify(st.open.Some?, line);
    var ks' := ks + [k];
    assert ks'[..|ks|] == ks;
    RecipesFromSnocOther(ks, k, 0);
    if k.HeaderLine? {
      BodyRunSnocOther(ks, k, |ks| + 1 - 1);
      assert BodyRun(ks', |ks| + 1) == [];
    }
  }

  lemma {:induction false} RunInvariant(lines: seq<string>)
    ensures Invariant(Run(lines), Kinds(lines))
  {
    if lines != [] {
      var init := lines[..|lines| - 1];
      RunInvariant(init);
      var st := Run(init);
      var line := lines[|lines| - 1];
      if Classify(st.open.Some?, line).BodyLine? {
        InvariantStepBody(st, Kinds(init), line);
      } else {
        InvariantStepOther(st, Kinds(init), line);
      }
    }
  }

  /** The parser computes the reference document on every input it can read. */
  lemma ParseIsExpected(lines: seq<string>)
    ensures Parse(lines, false) == Success(Expected(lines))
  {
    RunInvariant(lines);
  }

  // ---------------------------------------------------------------- consequences

  /** A recipe's doc is the text of the comment line directly above its header; any
      other line there (blank, separator, alias, variable, unrecognised) leaves it
      empty. Body lines cannot sit directly above a header's predecessor comment, so
      nothing further up matters. */
  lemma DocIsCommentAbove(ks: seq<LineKind>, i: nat)
    requires i < |ks| && ks[i].HeaderLine?
    ensures RecipeAt(ks, i).doc == if i > 0 && ks[i - 1].CommentLine? then ks[i - 1].text else ""
  {
    if i > 0 {
      assert ks[..i][i - 1] == ks[i - 1];
    }
  }

  lemma {:induction false} RecipesNeverSilentFrom(ks: seq<LineKind>, i: nat)
    requires i <= |ks|
    ensures forall r :: r in RecipesFrom(ks, i) ==> !r.silent
    decreases |ks| - i
  {
    if i < |ks| {
      RecipesNeverSilentFrom(ks, i + 1);
    }
  }

  /** No parsed recipe is marked silent: the parser never sets the flag. */
  lemma ParsedRecipesNeverSilent(lines: seq<string>)
    ensures forall r :: r in Parse(lines, false).value.recipes ==> !r.silent
  {
    ParseIsExpected(lines);
    RecipesNeverSilentFrom(Kinds(lines), 0);
  }

  lemma KindsSnoc(lines: seq<string>, line: string)
    ensures Kinds(lines + [line]) == Kinds(lines) + [Classify(OpenAfter(Kinds(lines)), line)]
  {
    assert (lines + [line])[..|lines|] == lines;
  }

  lemma KindsOfCommentHeader(c: string, h: string)
    requires ClassifyTrimmed(TrimSpace(c)).CommentLine?
    ensures Kinds([c, h]) == [ClassifyTrimmed(TrimSpace(c)), ClassifyTrimmed(TrimSpace(h))]
  {
    KindsSnoc([], c);
    assert [] + [c] == [c];
    KindsSnoc([c], h);
    assert [c] + [h] == [c, h];
  }

  lemma KindsOfCommentHeaderBody(c: string, h: string, body: string)
    requires ClassifyTrimmed(TrimSpace(c)).CommentLine?
    requires ClassifyTrimmed(TrimSpace(h)).HeaderLine?
    requires IsBodyLine(body)
    ensures Kinds([c, h, body]) ==
      [ClassifyTrimmed(TrimSpace(c)), ClassifyTrimmed(TrimSpace(h)), BodyLine(StripIndent(body))]
  {
    KindsOfCommentHeader(c, h);
    KindsSnoc([c, h], body);
    assert [c, h] + [body] == [c, h, body];
  }

  /** Lines without variables or aliases declare none. */
  lemma {:induction false} NoStatements(ks: seq<LineKind>)
    requires forall i :: 0 <= i < |ks| ==> !ks[i].VariableLine? && !ks[i].AliasLine?
    ensures VariablesOf(ks) == [] && AliasesOf(ks) == []
  {
    if ks != [] {
      NoStatements(ks[..|ks| - 1]);
    }
  }

  lemma DocumentOfCommentHeaderBody(ks: seq<LineKind>)
    requires |ks| == 3 && ks[0].CommentLine? && ks[1].HeaderLine? && ks[2].BodyLine?
    ensures VariablesOf(ks) == [] && AliasesOf(ks) == []
    ensures RecipesFrom(ks, 0) == [Recipe(ks[1].name, ks[0].text, ks[1].params, ks[1].deps, [ks[2].text], false)]
  {
    var k1 := ks[..1];
    NoStatements(ks);
    assert BodyRun(ks, 2) == [ks[2].text] + BodyRun(ks, 3);
    assert RecipesFrom(ks, 2) == [] + RecipesFrom(ks, 3);
    assert RecipesFrom(ks, 1) == [RecipeAt(ks, 1)] + RecipesFrom(ks, 2);
    assert RecipesFrom(ks, 0) == [] + RecipesFrom(ks, 1);
    assert PendingAfter(k1) == ks[0].text;
    assert RecipesFrom(ks, 3) == [] && BodyRun(ks, 3) == [];
    assert RecipeAt(ks, 1) == Recipe(ks[1].name, ks[0].text, ks[1].params, ks[1].deps, [ks[2].text], false);
  }

  /** A doc comment, a header and one indented line make one recipe with that doc and
      that body line, and nothing else. */
  lemma CommentHeaderBody(c: string, h: string, body: string)
    requires ClassifyTrimmed(TrimSpace(c)).CommentLine?
    requires ClassifyTrimmed(TrimSpace(h)).HeaderLine?
    requires IsBodyLine(body)
    ensures var k := ClassifyTrimmed(TrimSpace(h));
      Parse([c, h, body], false) == Success(Justfile([],
        [Recipe(k.name, ClassifyTrimmed(TrimSpace(c)).text, k.params, k.deps, [StripIndent(body)], false)],
        []))
  {
    ParseIsExpected([c, h, body]);
    KindsOfCommentHeaderBody(c, h, body);
    DocumentOfCommentHeaderBody(Kinds([c, h, body]));
  }
}
