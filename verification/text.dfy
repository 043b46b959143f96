/** The pieces of Go's `strings` package the parser relies on, over ASCII text:
    `TrimSpace`, `Fields`, `HasPrefix` and `Join`, together with the two whitespace
    classes involved (Go's `unicode.IsSpace` restricted to ASCII, and RE2's `\s`). */
module Text {

  /** ASCII whitespace as `strings.TrimSpace` and `strings.Fields` see it. */
  predicate IsSpace(c: char) {
    c == ' ' || c == '\t' || c == '\n' || c == '\U{B}' || c == '\U{C}' || c == '\r'
  }

  predicate NotSpace(c: char) {
    !IsSpace(c)
  }

  /** The regexp class `\s`: RE2 leaves the vertical tab out. */
  predicate IsRegexSpace(c: char) {
    c == ' ' || c == '\t' || c == '\n' || c == '\U{C}' || c == '\r'
  }

  /** What the regexp `.` matches: anything but a newline. */
  predicate NotNewline(c: char) {
    c != '\n'
  }

  predicate All(s: string, p: char -> bool) {
    forall i {:trigger p(s[i])} :: 0 <= i < |s| ==> p(s[i])
  }

  predicate StartsWith(s: string, prefix: string) {
    |prefix| <= |s| && s[..|prefix|] == prefix
  }

  /** Length of the longest prefix of `s` whose characters all satisfy `p`. */
  function Span(s: string, p: char -> bool): (n: nat)
    ensures n <= |s|
    ensures All(s[..n], p)
    ensures n < |s| ==> !p(s[n])
  {
    if s == [] || !p(s[0]) then 0 else 1 + Span(s[1..], p)
  }

  /** Length of the longest suffix of `s` whose characters all satisfy `p`. */
  function Rspan(s: string, p: char -> bool): (n: nat)
    ensures n <= |s|
    ensures All(s[|s| - n..], p)
    ensures n < |s| ==> !p(s[|s| - n - 1])
  {
    if s == [] || !p(s[|s| - 1]) then 0 else 1 + Rspan(s[..|s| - 1], p)
  }

  /** A span stops exactly where the class ends. */
  lemma {:induction false} SpanOfSplit(a: string, b: string, p: char -> bool)
    requires All(a, p)
    requires b == [] || !p(b[0])
    ensures Span(a + b, p) == |a|
  {
    if a != [] {
      assert (a + b)[0] == a[0];
      assert (a + b)[1..] == a[1..] + b;
      SpanOfSplit(a[1..], b, p);
    } else {
      assert a + b == b;
    }
  }

  lemma {:induction false} SpanAtLeast(a: string, b: string, p: char -> bool)
    requires All(a, p)
    ensures Span(a + b, p) >= |a|
  {
    if a != [] {
      assert (a + b)[0] == a[0];
      assert (a + b)[1..] == a[1..] + b;
      SpanAtLeast(a[1..], b, p);
    }
  }

  lemma {:induction false} RspanOfSplit(a: string, b: string, p: char -> bool)
    requires All(b, p)
    requires a == [] || !p(a[|a| - 1])
    ensures Rspan(a + b, p) == |b|
  {
    if b != [] {
      assert (a + b)[|a + b| - 1] == b[|b| - 1];
      assert (a + b)[..|a + b| - 1] == a + b[..|b| - 1];
      RspanOfSplit(a, b[..|b| - 1], p);
    } else {
      assert a + b == a;
    }
  }

  lemma AllAt(s: string, p: char -> bool, i: int)
    requires All(s, p) && 0 <= i < |s|
    ensures p(s[i])
  {
  }

  lemma AllSuffix(s: string, i: int, p: char -> bool)
    requires All(s, p) && 0 <= i <= |s|
    ensures All(s[i..], p)
  {
    forall j | 0 <= j < |s| - i ensures p(s[i..][j]) {
      AllAt(s, p, i + j);
    }
  }

  /** Cutting a concatenation where its parts meet gives the parts back. */
  lemma CutAppend(a: string, b: string)
    ensures (a + b)[..|a|] == a && (a + b)[|a|..] == b
  {
  }

  /** A string is its prefix followed by its suffix. */
  lemma SplitAt(s: string, i: int)
    requires 0 <= i <= |s|
    ensures s == s[..i] + s[i..]
  {
  }

  lemma StartsWithSplit(s: string, prefix: string)
    requires StartsWith(s, prefix)
    ensures s == prefix + s[|prefix|..]
  {
    SplitAt(s, |prefix|);
  }

  lemma SkipSpan(a: string, b: string, p: char -> bool)
    requires All(a, p)
    requires b == [] || !p(b[0])
    ensures Span(a + b, p) == |a|
    ensures (a + b)[Span(a + b, p)..] == b
  {
    SpanOfSplit(a, b, p);
    CutAppend(a, b);
  }

  lemma SkipRspan(a: string, b: string, p: char -> bool)
    requires All(b, p)
    requires a == [] || !p(a[|a| - 1])
    ensures Rspan(a + b, p) == |b|
    ensures (a + b)[..|a + b| - Rspan(a + b, p)] == a
  {
    RspanOfSplit(a, b, p);
    CutAppend(a, b);
  }

  /** A string with no surrounding whitespace. */
  predicate Unpadded(s: string) {
    s == [] || (NotSpace(s[0]) && NotSpace(s[|s| - 1]))
  }

  /** Go's `strings.TrimSpace` over ASCII whitespace. */
  function TrimSpace(s: string): (r: string)
    ensures Unpadded(r)
    ensures |r| <= |s|
    ensures r == [] <==> All(s, IsSpace)
  {
    var k := Span(s, IsSpace);
    var j := |s[k..]| - Rspan(s[k..], IsSpace);
    TrimmedUnpadded(s, k, j);
    TrimmedEmpty(s, k, j);
    s[k..][..j]
  }

  lemma TrimmedUnpadded(s: string, k: nat, j: nat)
    requires k == Span(s, IsSpace) && j == |s[k..]| - Rspan(s[k..], IsSpace)
    ensures Unpadded(s[k..][..j])
  {
    var a := s[k..];
    if j > 0 {
      assert a[..j][0] == s[k];
      assert a[..j][j - 1] == a[|a| - Rspan(a, IsSpace) - 1];
    }
  }

  /** Trimming leaves nothing exactly when both cuts together cover the whole string:
      the leading cut keeps whitespace, and an empty middle means the trailing cut
      took the rest. Each direction is stated positively, through the two halves. */
  lemma TrimmedEmpty(s: string, k: nat, j: nat)
    requires k == Span(s, IsSpace) && j == |s[k..]| - Rspan(s[k..], IsSpace)
    ensures s[k..][..j] == [] <==> All(s, IsSpace)
  {
    var a := s[k..];
    SplitAt(s, k);
    if j == 0 {
      RspanCovers(a, IsSpace);
      AllConcat(s[..k], a, IsSpace);
    }
    if All(s, IsSpace) {
      AllSuffix(s, k, IsSpace);
      RspanOfAll(a, IsSpace);
    }
  }

  /** A suffix span as long as the string says every character is in the class. */
  lemma RspanCovers(a: string, p: char -> bool)
    requires Rspan(a, p) == |a|
    ensures All(a, p)
  {
    assert a[|a| - Rspan(a, p)..] == a;
  }

  lemma RspanOfAll(a: string, p: char -> bool)
    requires All(a, p)
    ensures Rspan(a, p) == |a|
  {
    RspanOfSplit([], a, p);
    assert [] + a == a;
  }

  /** Trimming undoes any whitespace padding around an unpadded string: the partner of
      `TrimSpace` that pins its result down for every input. */
  lemma TrimSpaceOfPadded(a: string, m: string, b: string)
    requires All(a, IsSpace) && All(b, IsSpace) && Unpadded(m)
    ensures TrimSpace(a + m + b) == m
  {
    var s := a + m + b;
    if m == [] {
      assert All(s, IsSpace) by {
        forall i | 0 <= i < |s| ensures IsSpace(s[i]) {
          if i < |a| { assert s[i] == a[i]; } else { assert s[i] == b[i - |a|]; }
        }
      }
    } else {
      assert s == a + (m + b);
      SpanOfSplit(a, m + b, IsSpace);
      assert s[|a|..] == m + b;
      RspanOfSplit(m, b, IsSpace);
    }
  }

  /** Trimming leaves an unpadded string as it is. */
  lemma TrimSpaceOfUnpadded(s: string)
    requires Unpadded(s)
    ensures TrimSpace(s) == s
  {
    assert s == [] + s + [];
    TrimSpaceOfPadded([], s, []);
  }

  lemma TrimSpaceIdempotent(s: string)
    ensures TrimSpace(TrimSpace(s)) == TrimSpace(s)
  {
    TrimSpaceOfUnpadded(TrimSpace(s));
  }

  /** A word as `strings.Fields` returns it: non-empty, without whitespace. */
  predicate IsWord(w: string) {
    w != [] && All(w, NotSpace)
  }

  /** Go's `strings.Fields`: the maximal runs of non-whitespace, in order. */
  function Fields(s: string): (r: seq<string>)
    ensures forall i :: 0 <= i < |r| ==> IsWord(r[i])
    decreases |s|
  {
    var k := Span(s, IsSpace);
    if k == |s| then []
    else
      var rest := s[k..];
      var w := Span(rest, NotSpace);
      [rest[..w]] + Fields(rest[w..])
  }

  /** Go's `strings.Join`. */
  function Join(xs: seq<string>, sep: string): string {
    if xs == [] then []
    else if |xs| == 1 then xs[0]
    else xs[0] + sep + Join(xs[1..], sep)
  }

  lemma {:induction false} FieldsSkipsSpace(c: char, s: string)
    requires IsSpace(c)
    ensures Fields([c] + s) == Fields(s)
  {
    var t := [c] + s;
    assert t[1..] == s;
    assert Span(t, IsSpace) == 1 + Span(s, IsSpace);
    assert t[Span(t, IsSpace)..] == s[Span(s, IsSpace)..];
  }

  /** Leading whitespace does not change the fields. */
  lemma {:induction false} FieldsSkipsLeading(a: string, m: string)
    requires All(a, IsSpace)
    ensures Fields(a + m) == Fields(m)
  {
    if a != [] {
      var c, rest := a[0], a[1..] + m;
      assert a + m == [c] + rest;
      AllAt(a, IsSpace, 0);
      AllSuffix(a, 1, IsSpace);
      FieldsSkipsSpace(c, rest);
      FieldsSkipsLeading(a[1..], m);
    } else {
      assert a + m == m;
    }
  }

  lemma AllConcat(a: string, b: string, p: char -> bool)
    requires All(a, p) && All(b, p)
    ensures All(a + b, p)
  {
    forall i | 0 <= i < |a + b| ensures p((a + b)[i]) {
      if i < |a| { AllAt(a, p, i); } else { AllAt(b, p, i - |a|); }
    }
  }

  lemma FieldsOfSpaces(s: string)
    requires All(s, IsSpace)
    ensures Fields(s) == []
  {
    SpanOfSplit(s, [], IsSpace);
    assert s + [] == s;
  }

  /** Trailing whitespace does not change the fields. */
  lemma {:induction false} FieldsDropsTrailing(m: string, b: string)
    requires All(b, IsSpace)
    ensures Fields(m + b) == Fields(m)
    decreases |m|
  {
    var k := Span(m, IsSpace);
    SplitAt(m, k);
    var rest := m[k..];
    if k == |m| {
      assert m[..k] == m;
      AllConcat(m, b, IsSpace);
      FieldsOfSpaces(m + b);
      FieldsOfSpaces(m);
    } else {
      FieldsDropsTrailingWord(m[..k], rest, b);
    }
  }

  /** The step of `FieldsDropsTrailing` past the first word. */
  lemma {:induction false} FieldsDropsTrailingWord(pre: string, rest: string, b: string)
    requires All(pre, IsSpace) && rest != [] && !IsSpace(rest[0]) && All(b, IsSpace)
    ensures Fields(pre + rest + b) == Fields(pre + rest)
    decreases |rest|, 0
  {
    var m := pre + rest;
    assert m + b == pre + (rest + b);
    SpanOfSplit(pre, rest + b, IsSpace);
    SpanOfSplit(pre, rest, IsSpace);
    CutAppend(pre, rest + b);
    CutAppend(pre, rest);
    var w := Span(rest, NotSpace);
    SplitAt(rest, w);
    assert rest + b == rest[..w] + (rest[w..] + b);
    if w < |rest| {
      SpanOfSplit(rest[..w], rest[w..] + b, NotSpace);
    } else {
      assert rest[w..] + b == b;
      if b != [] {
        AllAt(b, IsSpace, 0);
      }
      SpanOfSplit(rest[..w], b, NotSpace);
    }
    CutAppend(rest[..w], rest[w..] + b);
    FieldsDropsTrailing(rest[w..], b);
  }

  /** Trimming first does not change the fields. */
  lemma FieldsOfTrimmed(s: string)
    ensures Fields(TrimSpace(s)) == Fields(s)
  {
    var k := Span(s, IsSpace);
    var a := s[k..];
    var j := |a| - Rspan(a, IsSpace);
    SplitAt(s, k);
    SplitAt(a, j);
    FieldsSkipsLeading(s[..k], a);
    FieldsDropsTrailing(a[..j], a[j..]);
  }

  /** A word followed by whitespace (or nothing) is the first field. */
  lemma FieldsOfWordThen(w: string, tail: string)
    requires IsWord(w)
    requires tail == [] || IsSpace(tail[0])
    ensures Fields(w + tail) == [w] + Fields(tail)
  {
    var s := w + tail;
    assert NotSpace(w[0]) && s[0] == w[0];
    SpanOfSplit([], s, IsSpace);
    assert [] + s == s;
    assert s[0..] == s;
    SpanOfSplit(w, tail, NotSpace);
    assert s[..|w|] == w;
    assert s[|w|..] == tail;
  }

  /** `Fields` splits back what `Join` with a single space glued together, so a
      space-joined argument list can be recovered word for word. */
  lemma {:induction false} FieldsOfJoin(ws: seq<string>)
    requires forall i :: 0 <= i < |ws| ==> IsWord(ws[i])
    ensures Fields(Join(ws, " ")) == ws
  {
    if |ws| == 1 {
      FieldsOfWordThen(ws[0], []);
      assert ws[0] + [] == ws[0];
    } else if |ws| > 1 {
      FieldsOfJoin(ws[1..]);
      FieldsOfJoinStep(ws);
    }
  }

  lemma FieldsOfJoinStep(ws: seq<string>)
    requires |ws| > 1 && IsWord(ws[0])
    requires Fields(Join(ws[1..], " ")) == ws[1..]
    ensures Fields(Join(ws, " ")) == ws
  {
    var rest := Join(ws[1..], " ");
    assert Join(ws, " ") == ws[0] + (" " + rest);
    FieldsOfWordThen(ws[0], " " + rest);
    FieldsSkipsSpace(' ', rest);
    assert ws == [ws[0]] + ws[1..];
  }

  /** Words each followed by its own whitespace run: `ws[0] + gaps[0] + ws[1] + gaps[1] ...`. */
  function Spaced(ws: seq<string>, gaps: seq<string>): string
    requires |gaps| == |ws|
  {
    if ws == [] then [] else ws[0] + (gaps[0] + Spaced(ws[1..], gaps[1..]))
  }

  /** Whitespace runs fit to separate words: every run is whitespace, and every run but
      the last is non-empty. */
  predicate Gaps(gaps: seq<string>) {
    forall i :: 0 <= i < |gaps| ==> All(gaps[i], IsSpace) && (i + 1 < |gaps| ==> gaps[i] != [])
  }

  /** `Fields` recovers the words however they are spaced: any whitespace before the
      first word, any non-empty runs of spaces and tabs between them, any after the last. */
  lemma {:induction false} FieldsOfSpaced(lead: string, ws: seq<string>, gaps: seq<string>)
    requires All(lead, IsSpace) && |gaps| == |ws| && Gaps(gaps)
    requires forall i :: 0 <= i < |ws| ==> IsWord(ws[i])
    ensures Fields(lead + Spaced(ws, gaps)) == ws
    decreases |ws|
  {
    FieldsSkipsLeading(lead, Spaced(ws, gaps));
    if ws != [] {
      assert Gaps(gaps[1..]) by {
        forall i | 0 <= i < |gaps[1..]|
          ensures All(gaps[1..][i], IsSpace) && (i + 1 < |gaps[1..]| ==> gaps[1..][i] != [])
        {
          assert gaps[1..][i] == gaps[i + 1];
        }
      }
      FieldsOfSpaced(gaps[0], ws[1..], gaps[1..]);
      FieldsOfSpacedStep(ws, gaps);
    }
  }

  lemma FieldsOfSpacedStep(ws: seq<string>, gaps: seq<string>)
    requires |gaps| == |ws| > 0 && Gaps(gaps) && IsWord(ws[0])
    requires Fields(gaps[0] + Spaced(ws[1..], gaps[1..])) == ws[1..]
    ensures Fields(Spaced(ws, gaps)) == ws
  {
    var tail := gaps[0] + Spaced(ws[1..], gaps[1..]);
    if gaps[0] != [] {
      AllAt(gaps[0], IsSpace, 0);
      assert tail[0] == gaps[0][0];
    } else {
      assert |gaps| == 1;
      assert tail == [];
    }
    FieldsOfWordThen(ws[0], tail);
    assert ws == [ws[0]] + ws[1..];
  }
}
