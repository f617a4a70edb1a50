/**
 * The three `<summary>` rules applied by `CompressSummary`
 * (CSharpCompressors.cs lines 96-103), in this order: a summary of exactly
 * one content line is folded onto one line (line 23); a one-line summary of
 * at most `N` words is deleted (line 37); a summary whose content lines are
 * all blank is deleted (line 24).
 */
module Summaries {
  import opened Scan
  import opened Words
  import opened DocTags

  /** The replacement `${indent}/// <summary> ${comment} </summary>` and a new-line. */
  function InlineSummary(indent: string, comment: string, nl: NewLine): string {
    indent + "/// <summary> " + comment + " </summary>" + nl.Text()
  }

  // `s[c..g]` is the one content line `[ \t]+///[ \t]*(?<comment>[^\r\n]*)\r?\n`,
  // its comment being `s[e..f]`: the blanks before the comment are taken
  // greedily, so the comment does not begin with a blank.
  ghost predicate IsContentLine(s: string, c: nat, e: nat, f: nat, g: nat) {
    exists d: nat ::
      && c < d && Span(s, c, d, Blank) && LitAt(s, d, "///") && Span(s, d + 3, e, Blank)
      && (e == |s| || !IsBlank(s[e])) && Span(s, e, f, NotBreak) && BreakAt(s, f, g)
  }

  // `s[i..j]` is in `(?<indent>[ \t]+)/// <summary>[ \t]*\r?\n[ \t]+///[ \t]*(?<comment>[^\r\n]*)\r?\n[ \t]+/// </summary>[^\n]*\n`,
  // the indentation ending at `a` and the comment being `s[e..f]`.
  ghost predicate IsSingleLineSummary(s: string, i: nat, a: nat, c: nat, e: nat, f: nat, g: nat, j: nat) {
    IsSummaryOpen(s, i, a, c) && IsContentLine(s, c, e, f, g) && IsSummaryClose(s, g, j)
  }

  /** The opening line: indentation, `/// <summary>`, blanks and a line terminator. */
  function SummaryOpen(s: string, i: nat): (r: Option<(nat, nat)>)
    requires i <= |s|
    ensures r.Some? ==> i < r.value.0 < r.value.1 <= |s|
  {
    var a := SkipWhile(s, i, Blank);
    if i < a && LitAt(s, a, "/// <summary>") then
      match LineBreakAt(s, SkipWhile(s, a + 13, Blank))
      case None => None
      case Some(c) => Some((a, c))
    else None
  }

  // `s[i..c]` is the opening line `[ \t]+/// <summary>[ \t]*\r?\n` whose
  // indentation ends at `a`.
  ghost predicate IsSummaryOpen(s: string, i: nat, a: nat, c: nat) {
    exists b: nat ::
      i < a && Span(s, i, a, Blank) && LitAt(s, a, "/// <summary>") && Span(s, a + 13, b, Blank) && BreakAt(s, b, c)
  }

  lemma SummaryOpenExactly(s: string, i: nat, a: nat, c: nat)
    requires i <= |s|
    ensures SummaryOpen(s, i) == Some((a, c)) <==> IsSummaryOpen(s, i, a, c)
  {
    if SummaryOpen(s, i) == Some((a, c)) {
      assert Span(s, a + 13, SkipWhile(s, a + 13, Blank), Blank);
    }
    if IsSummaryOpen(s, i, a, c) {
      var b: nat :| i < a && Span(s, i, a, Blank) && LitAt(s, a, "/// <summary>") && Span(s, a + 13, b, Blank) && BreakAt(s, b, c);
      LitAtHead(s, a, "/// <summary>");
      SkipWhileExact(s, i, a, Blank);
      SkipWhileExact(s, a + 13, b, Blank);
    }
  }

  /** The content line: its comment `s[e..f]` and where the line ends. */
  function ContentLine(s: string, c: nat): (r: Option<(nat, nat, nat)>)
    requires c <= |s|
    ensures r.Some? ==> c < r.value.0 <= r.value.1 < r.value.2 <= |s|
  {
    var d := SkipWhile(s, c, Blank);
    if c < d && LitAt(s, d, "///") then
      var e := SkipWhile(s, d + 3, Blank);
      var f := SkipWhile(s, e, NotBreak);
      match LineBreakAt(s, f)
      case None => None
      case Some(g) => Some((e, f, g))
    else None
  }

  lemma ContentLineExactly(s: string, c: nat, e: nat, f: nat, g: nat)
    requires c <= |s|
    ensures ContentLine(s, c) == Some((e, f, g)) <==> IsContentLine(s, c, e, f, g)
  {
    if ContentLine(s, c) == Some((e, f, g)) {
      var d := SkipWhile(s, c, Blank);
      ContentLineIntro(s, c, d, e, f, g);
    }
    if IsContentLine(s, c, e, f, g) {
      var d: nat :|
        && c < d && Span(s, c, d, Blank) && LitAt(s, d, "///") && Span(s, d + 3, e, Blank)
        && (e == |s| || !IsBlank(s[e])) && Span(s, e, f, NotBreak) && BreakAt(s, f, g);
      ContentLineComplete(s, c, d, e, f, g);
    }
  }

  lemma ContentLineIntro(s: string, c: nat, d: nat, e: nat, f: nat, g: nat)
    requires c < d && Span(s, c, d, Blank) && LitAt(s, d, "///") && Span(s, d + 3, e, Blank)
    requires (e == |s| || !IsBlank(s[e])) && Span(s, e, f, NotBreak) && BreakAt(s, f, g)
    ensures IsContentLine(s, c, e, f, g)
  {
  }

  lemma ContentLineComplete(s: string, c: nat, d: nat, e: nat, f: nat, g: nat)
    requires c < d && Span(s, c, d, Blank) && LitAt(s, d, "///") && Span(s, d + 3, e, Blank)
    requires (e == |s| || !IsBlank(s[e])) && Span(s, e, f, NotBreak) && BreakAt(s, f, g)
    ensures ContentLine(s, c) == Some((e, f, g))
  {
    LitAtHead(s, d, "///");
    SkipWhileExact(s, c, d, Blank);
    SkipWhileExact(s, d + 3, e, Blank);
    SkipWhileExact(s, e, f, NotBreak);
  }

  // `s[g..j]` is the closing line `[ \t]+/// </summary>[^\n]*\n`.
  ghost predicate IsSummaryClose(s: string, g: nat, j: nat) {
    exists h: nat :: g < h && Span(s, g, h, Blank) && LitAt(s, h, "/// </summary>") && LineRest(s, h + 14, j)
  }

  /** Matches the closing line at `g`. */
  function SummaryClose(s: string, g: nat): (r: Option<nat>)
    requires g <= |s|
    ensures r.Some? ==> g < r.value <= |s|
  {
    var h := SkipWhile(s, g, Blank);
    if g < h && LitAt(s, h, "/// </summary>") then RestOfLine(s, h + 14) else None
  }

  lemma SummaryCloseExactly(s: string, g: nat, j: nat)
    requires g <= |s|
    ensures SummaryClose(s, g) == Some(j) <==> IsSummaryClose(s, g, j)
  {
    if IsSummaryClose(s, g, j) {
      var h: nat :| g < h && Span(s, g, h, Blank) && LitAt(s, h, "/// </summary>") && LineRest(s, h + 14, j);
      LitAtHead(s, h, "/// </summary>");
      SkipWhileExact(s, g, h, Blank);
      RestOfLineExact(s, h + 14, j);
    }
  }

  /** The rule of line 23, replaced by the one-line form (line 98). */
  function MatchSingleLineSummary(s: string, i: nat, nl: NewLine): (r: Option<Found>)
    requires i <= |s|
    ensures r.Some? ==> i < r.value.end <= |s|
  {
    match SummaryOpen(s, i)
    case None => None
    case Some((a, c)) =>
      match ContentLine(s, c)
      case None => None
      case Some((e, f, g)) =>
        match SummaryClose(s, g)
        case None => None
        case Some(j) => Some(Found(j, InlineSummary(s[i..a], s[e..f], nl)))
  }

  /** Every match of the rule is a three-line summary, replaced by the
      one-line form made of its indentation and its comment. */
  lemma SingleLineSummarySound(s: string, i: nat, nl: NewLine)
    requires i <= |s| && MatchSingleLineSummary(s, i, nl).Some?
    ensures var m := MatchSingleLineSummary(s, i, nl).value;
      exists a: nat, c: nat, e: nat, f: nat, g: nat ::
        && IsSingleLineSummary(s, i, a, c, e, f, g, m.end) && i <= a && e <= f <= |s|
        && m.repl == InlineSummary(s[i..a], s[e..f], nl)
  {
    var (a, c) := SummaryOpen(s, i).value;
    var (e, f, g) := ContentLine(s, c).value;
    var j := SummaryClose(s, g).value;
    SingleLineSummaryParts(s, i, a, c, e, f, g, j);
    assert IsSingleLineSummary(s, i, a, c, e, f, g, j);
  }

  /** Every three-line summary is a match of the rule, replaced by the
      one-line form made of its indentation and its comment. */
  lemma SingleLineSummaryComplete(s: string, i: nat, nl: NewLine, a: nat, c: nat, e: nat, f: nat, g: nat, j: nat)
    requires i <= |s| && IsSingleLineSummary(s, i, a, c, e, f, g, j)
    ensures i <= a && e <= f <= |s|
    ensures MatchSingleLineSummary(s, i, nl) == Some(Found(j, InlineSummary(s[i..a], s[e..f], nl)))
  {
    SummaryOpenExactly(s, i, a, c);
    assert c <= |s|;
    ContentLineExactly(s, c, e, f, g);
    assert g <= |s|;
    SummaryCloseExactly(s, g, j);
  }

  lemma SingleLineSummaryParts(s: string, i: nat, a: nat, c: nat, e: nat, f: nat, g: nat, j: nat)
    requires i <= |s| && c <= |s| && g <= |s|
    ensures SummaryOpen(s, i) == Some((a, c)) <==> IsSummaryOpen(s, i, a, c)
    ensures ContentLine(s, c) == Some((e, f, g)) <==> IsContentLine(s, c, e, f, g)
    ensures SummaryClose(s, g) == Some(j) <==> IsSummaryClose(s, g, j)
  {
    SummaryOpenExactly(s, i, a, c);
    ContentLineExactly(s, c, e, f, g);
    SummaryCloseExactly(s, g, j);
  }

  // `s[i..j]` is in `[ \t]+/// <summary>\s*(\w*\s*){0,n}\.?\s*</summary>[^\n]*\n`.
  ghost predicate IsShortSummary(s: string, i: nat, n: nat, j: nat) {
    exists e: nat :: IsIndented(s, i, "/// <summary>", e) && IsShortClose(s, e, n, "</summary>", j)
  }

  /** The rule of line 37 for the threshold `n`, replaced by nothing (line 99). */
  function MatchShortSummary(s: string, i: nat, n: nat): (r: Option<Found>)
    requires i <= |s|
    ensures r.Some? ==> i < r.value.end <= |s| && r.value.repl == ""
  {
    match IndentedLit(s, i, "/// <summary>")
    case None => None
    case Some(e) =>
      match ShortClose(s, e, n, "</summary>")
      case None => None
      case Some(j) => Some(Found(j, ""))
  }

  /** The rule deletes exactly the summaries whose text has at most `n` words
      and at most one full stop after them. */
  lemma ShortSummaryExactly(s: string, i: nat, n: nat, j: nat)
    requires i <= |s|
    ensures MatchShortSummary(s, i, n) == Some(Found(j, "")) <==> IsShortSummary(s, i, n, j)
  {
    if MatchShortSummary(s, i, n) == Some(Found(j, "")) {
      var e := IndentedLit(s, i, "/// <summary>").value;
      IndentedLitExactly(s, i, "/// <summary>", e);
      ShortCloseExactly(s, e, n, "</summary>", j);
    }
    if IsShortSummary(s, i, n, j) {
      var e: nat :| IsIndented(s, i, "/// <summary>", e) && IsShortClose(s, e, n, "</summary>", j);
      IndentedLitExactly(s, i, "/// <summary>", e);
      ShortCloseExactly(s, e, n, "</summary>", j);
    }
  }

  // `s[p..r]` is one blank doc line `[ \t]+///[ \t]*\r?\n`.
  ghost predicate IsBlankDocLine(s: string, p: nat, r: nat) {
    exists x: nat, y: nat :: p < x && Span(s, p, x, Blank) && LitAt(s, x, "///") && Span(s, x + 3, y, Blank) && BreakAt(s, y, r)
  }

  // `s[p..d]` is a sequence of blank doc lines: `([ \t]+///[ \t]*\r?\n)*`.
  ghost predicate BlankDocLines(s: string, p: nat, d: nat)
    decreases d - p
  {
    p == d || exists r: nat :: p < r <= d && IsBlankDocLine(s, p, r) && BlankDocLines(s, r, d)
  }

  /** Matches one blank doc line at `p`. */
  function BlankDocLine(s: string, p: nat): (r: Option<nat>)
    requires p <= |s|
    ensures r.Some? ==> p < r.value <= |s| && IsBlankDocLine(s, p, r.value)
  {
    var x := SkipWhile(s, p, Blank);
    if p < x && LitAt(s, x, "///") then
      var y := SkipWhile(s, x + 3, Blank);
      match LineBreakAt(s, y)
      case None => None
      case Some(r) => Some(r)
    else None
  }

  /** The greedy loop over blank doc lines. */
  function BlankDocRun(s: string, p: nat): (d: nat)
    requires p <= |s|
    ensures p <= d <= |s| && BlankDocLines(s, p, d) && BlankDocLine(s, d).None?
    decreases |s| - p
  {
    match BlankDocLine(s, p)
    case None => p
    case Some(r) => BlankDocRunStep(s, p, r, BlankDocRun(s, r))
  }

  /** One line more on the front of a run: a helper of `BlankDocRun` that
      states the step of its contract. */
  function BlankDocRunStep(s: string, p: nat, r: nat, d: nat): (d': nat)
    requires p < r <= d <= |s| && IsBlankDocLine(s, p, r) && BlankDocLines(s, r, d)
    ensures d' == d && BlankDocLines(s, p, d)
  {
    d
  }

  /** A blank doc line is exactly what one step of the loop consumes. */
  lemma BlankDocLineExact(s: string, p: nat, r: nat)
    requires p <= |s| && IsBlankDocLine(s, p, r)
    ensures BlankDocLine(s, p) == Some(r)
  {
    var x: nat, y: nat :| p < x && Span(s, p, x, Blank) && LitAt(s, x, "///") && Span(s, x + 3, y, Blank) && BreakAt(s, y, r);
    LitAtHead(s, x, "///");
    SkipWhileExact(s, p, x, Blank);
    SkipWhileExact(s, x + 3, y, Blank);
  }

  /** Blank doc lines followed by the closing line are exactly what the loop consumes. */
  lemma BlankDocRunExact(s: string, p: nat, d: nat, j: nat)
    requires p <= d <= |s| && BlankDocLines(s, p, d) && IsSummaryClose(s, d, j)
    ensures BlankDocRun(s, p) == d
  {
    CloseIsNotBlank(s, d, j);
    BlankDocRunStops(s, p, d);
  }

  /** The loop consumes a run of blank doc lines up to the first line that is
      not one. */
  lemma {:induction false} BlankDocRunStops(s: string, p: nat, d: nat)
    requires p <= d <= |s| && BlankDocLines(s, p, d) && BlankDocLine(s, d).None?
    ensures BlankDocRun(s, p) == d
    decreases d - p
  {
    if p < d {
      var r: nat :| p < r <= d && IsBlankDocLine(s, p, r) && BlankDocLines(s, r, d);
      BlankDocLineExact(s, p, r);
      BlankDocRunStops(s, r, d);
    }
  }

  /** The closing line is not a blank doc line. */
  lemma CloseIsNotBlank(s: string, g: nat, j: nat)
    requires g <= |s| && IsSummaryClose(s, g, j)
    ensures BlankDocLine(s, g).None?
  {
    var h: nat :| g < h && Span(s, g, h, Blank) && LitAt(s, h, "/// </summary>") && LineRest(s, h + 14, j);
    LitAtHead(s, h, "/// </summary>");
    SkipWhileExact(s, g, h, Blank);
    assert s[h + 3] == ' ' && s[h + 4] == '<' by {
      assert s[h + 3] == "/// </summary>"[3];
      assert s[h + 4] == "/// </summary>"[4];
    }
    SkipWhileExact(s, h + 3, h + 4, Blank);
  }

  // `s[i..j]` is in `[ \t]+/// <summary>[ \t]*\r?\n([ \t]+///[ \t]*\r?\n)*[ \t]+/// </summary>[^\n]*\n`.
  ghost predicate IsEmptySummary(s: string, i: nat, j: nat) {
    exists a: nat, c: nat, d: nat :: IsSummaryOpen(s, i, a, c) && BlankDocLines(s, c, d) && IsSummaryClose(s, d, j)
  }

  /** The rule of line 24, replaced by nothing (line 100). */
  function MatchEmptySummary(s: string, i: nat): (r: Option<Found>)
    requires i <= |s|
    ensures r.Some? ==> i < r.value.end <= |s| && r.value.repl == ""
  {
    match SummaryOpen(s, i)
    case None => None
    case Some((a, c)) =>
      match SummaryClose(s, BlankDocRun(s, c))
      case None => None
      case Some(j) => Some(Found(j, ""))
  }

  /** The rule deletes exactly the summaries whose content lines are all blank. */
  lemma EmptySummaryExactly(s: string, i: nat, j: nat)
    requires i <= |s|
    ensures MatchEmptySummary(s, i) == Some(Found(j, "")) <==> IsEmptySummary(s, i, j)
  {
    if MatchEmptySummary(s, i) == Some(Found(j, "")) {
      var (a, c) := SummaryOpen(s, i).value;
      var d := BlankDocRun(s, c);
      SummaryOpenExactly(s, i, a, c);
      SummaryCloseExactly(s, d, j);
      EmptySummaryIntro(s, i, a, c, d, j);
    }
    if IsEmptySummary(s, i, j) {
      var a: nat, c: nat, d: nat :| IsSummaryOpen(s, i, a, c) && BlankDocLines(s, c, d) && IsSummaryClose(s, d, j);
      EmptySummaryComplete(s, i, a, c, d, j);
    }
  }

  lemma EmptySummaryIntro(s: string, i: nat, a: nat, c: nat, d: nat, j: nat)
    requires IsSummaryOpen(s, i, a, c) && BlankDocLines(s, c, d) && IsSummaryClose(s, d, j)
    ensures IsEmptySummary(s, i, j)
  {
  }

  lemma EmptySummaryComplete(s: string, i: nat, a: nat, c: nat, d: nat, j: nat)
    requires i <= |s| && IsSummaryOpen(s, i, a, c) && BlankDocLines(s, c, d) && IsSummaryClose(s, d, j)
    ensures MatchEmptySummary(s, i) == Some(Found(j, ""))
  {
    SummaryOpenExactly(s, i, a, c);
    assert c <= |s|;
    BlankDocLinesBounds(s, c, d, j);
    BlankDocRunExact(s, c, d, j);
    SummaryCloseExactly(s, d, j);
  }

  lemma BlankDocLinesBounds(s: string, p: nat, d: nat, j: nat)
    requires BlankDocLines(s, p, d) && IsSummaryClose(s, d, j)
    ensures p <= d <= |s|
  {
  }

  /** A summary folded onto one line by the rule of line 23, wherever it
      stands in the text, is then deleted whole by the rule of line 37 when its
      comment is white space and at most `n` words. */
  lemma InlinedShortSummaryDeleted(s: string, i: nat, a: nat, f: nat, j: nat, n: nat, nl: NewLine)
    requires i < a && Span(s, i, a, Blank) && LitAt(s, a, "/// <summary> ")
    requires Span(s, a + 14, f, SpaceOrWord) && Words.Words(s, a + 14, f) <= n
    requires LitAt(s, f, " </summary>" + nl.Text()) && j == f + 11 + |nl.Text()|
    ensures MatchShortSummary(s, i, n) == Some(Found(j, ""))
  {
    var e := a + 13;
    assert "/// <summary> " == "/// <summary>" + " ";
    assert " </summary>" == " " + "</summary>";
    LitAtAppend(s, a, "/// <summary>", " ");
    LitAtAppend(s, f, " </summary>", nl.Text());
    LitAtAppend(s, f, " ", "</summary>");
    LitAtHead(s, e, " ");
    LitAtHead(s, f, " ");
    assert IsIndented(s, i, "/// <summary>", e);
    PaddedWords(s, e, f, n);
    assert LineRest(s, f + 11, j) by {
      assert s[f + 11 + 0] == nl.Text()[0];
      assert s[f + 11 + (|nl.Text()| - 1)] == nl.Text()[|nl.Text()| - 1];
    }
    assert IsShortClose(s, e, n, "</summary>", j);
    ShortSummaryExactly(s, i, n, j);
  }

  // `s[d..g]` is a content line holding text: its comment `s[e..f]` is not
  // empty and does not begin with the closing tag, which would end the summary.
  ghost predicate IsTextLine(s: string, d: nat, e: nat, f: nat, g: nat) {
    IsContentLine(s, d, e, f, g) && e < f && !LitAt(s, e, "</summary>")
  }

  // `s[p..g]` is blank doc lines followed by one text line.
  ghost predicate BlanksThenText(s: string, p: nat, g: nat) {
    exists d: nat, e: nat, f: nat :: BlankDocLines(s, p, d) && IsTextLine(s, d, e, f, g)
  }

  // `s[i..g]` opens a summary whose content starts with two lines of text,
  // blank doc lines allowed before and between them: a summary of two or
  // more non-blank lines, up to its second text line. The indentation of
  // the opening line ends at `a`.
  ghost predicate IsLongSummaryHead(s: string, i: nat, a: nat, g: nat) {
    exists c: nat, h: nat :: IsSummaryOpen(s, i, a, c) && BlanksThenText(s, c, h) && BlanksThenText(s, h, g)
  }

  /** The first line of blank doc lines and a text line begins with
      indentation and `///`. */
  lemma DocLineHead(s: string, p: nat, g: nat) returns (x: nat)
    requires BlanksThenText(s, p, g)
    ensures p < x < g <= |s| && Span(s, p, x, Blank) && LitAt(s, x, "///")
  {
    var d: nat, e: nat, f: nat :| BlankDocLines(s, p, d) && IsTextLine(s, d, e, f, g);
    if p < d {
      var r: nat :| p < r <= d && IsBlankDocLine(s, p, r) && BlankDocLines(s, r, d);
      var y: nat;
      x, y :| p < x && Span(s, p, x, Blank) && LitAt(s, x, "///") && Span(s, x + 3, y, Blank) && BreakAt(s, y, r);
      BlankDocLinesBefore(s, r, d, e, f, g);
    } else {
      x :| p < x && Span(s, p, x, Blank) && LitAt(s, x, "///") && Span(s, x + 3, e, Blank)
        && (e == |s| || !IsBlank(s[e])) && Span(s, e, f, NotBreak) && BreakAt(s, f, g);
    }
  }

  /** A text line is not a closing line. */
  lemma TextLineIsNoClose(s: string, d: nat, e: nat, f: nat, g: nat)
    requires d <= |s| && IsTextLine(s, d, e, f, g)
    ensures SummaryClose(s, d).None?
  {
    var x: nat :| d < x && Span(s, d, x, Blank) && LitAt(s, x, "///") && Span(s, x + 3, e, Blank)
      && (e == |s| || !IsBlank(s[e])) && Span(s, e, f, NotBreak) && BreakAt(s, f, g);
    LitAtHead(s, x, "///");
    SkipWhileExact(s, d, x, Blank);
    if LitAt(s, x, "/// </summary>") {
      assert "/// </summary>" == "/// " + "</summary>";
      LitAtAppend(s, x, "/// ", "</summary>");
      assert s[x + 3] == "/// "[3];
      LitAtHead(s, x + 4, "</summary>");
      assert false;
    }
  }

  /** A text line is not a blank doc line. */
  lemma TextLineIsNotBlank(s: string, d: nat, e: nat, f: nat, g: nat)
    requires d <= |s| && IsTextLine(s, d, e, f, g)
    ensures BlankDocLine(s, d).None?
  {
    var x: nat :| d < x && Span(s, d, x, Blank) && LitAt(s, x, "///") && Span(s, x + 3, e, Blank)
      && (e == |s| || !IsBlank(s[e])) && Span(s, e, f, NotBreak) && BreakAt(s, f, g);
    LitAtHead(s, x, "///");
    SkipWhileExact(s, d, x, Blank);
    SkipWhileExact(s, x + 3, e, Blank);
    assert In(s[e], NotBreak);
  }

  /** A blank doc line is not a closing line. */
  lemma BlankDocLineIsNoClose(s: string, p: nat, r: nat)
    requires p <= |s| && IsBlankDocLine(s, p, r)
    ensures SummaryClose(s, p).None?
  {
    BlankDocLineExact(s, p, r);
    if SummaryClose(s, p).Some? {
      SummaryCloseExactly(s, p, SummaryClose(s, p).value);
      CloseIsNotBlank(s, p, SummaryClose(s, p).value);
      assert false;
    }
  }

  /** The first line of blank doc lines and a text line is not a closing line. */
  lemma FirstLineIsNoClose(s: string, p: nat, g: nat)
    requires BlanksThenText(s, p, g)
    ensures p <= |s| && SummaryClose(s, p).None?
  {
    var d: nat, e: nat, f: nat :| BlankDocLines(s, p, d) && IsTextLine(s, d, e, f, g);
    if p < d {
      var r: nat :| p < r <= d && IsBlankDocLine(s, p, r) && BlankDocLines(s, r, d);
      BlankDocLineIsNoClose(s, p, r);
    } else {
      TextLineIsNoClose(s, d, e, f, g);
    }
  }

  /** The first line of blank doc lines and a text line is a content line:
      where it ends, and that what follows it is not a closing line. */
  lemma FirstContentLine(s: string, c: nat, h: nat, g: nat)
    requires BlanksThenText(s, c, h) && BlanksThenText(s, h, g)
    ensures c <= |s| && ContentLine(s, c).Some?
    ensures ContentLine(s, c).value.2 <= |s| && SummaryClose(s, ContentLine(s, c).value.2).None?
  {
    var d: nat, e: nat, f: nat :| BlankDocLines(s, c, d) && IsTextLine(s, d, e, f, h);
    if c < d {
      var r: nat :| c < r <= d && IsBlankDocLine(s, c, r) && BlankDocLines(s, r, d);
      BlankIsContentLine(s, c, r);
      FirstLineIsNoClose(s, r, h);
    } else {
      ContentLineExactly(s, c, e, f, h);
      FirstLineIsNoClose(s, h, g);
    }
  }

  /** A blank doc line is a content line with an empty comment. */
  lemma BlankIsContentLine(s: string, p: nat, r: nat)
    requires p <= |s| && IsBlankDocLine(s, p, r)
    ensures ContentLine(s, p).Some? && ContentLine(s, p).value.2 == r
  {
    var x: nat, y: nat :| p < x && Span(s, p, x, Blank) && LitAt(s, x, "///") && Span(s, x + 3, y, Blank) && BreakAt(s, y, r);
    LitAtHead(s, x, "///");
    SkipWhileExact(s, p, x, Blank);
    SkipWhileExact(s, x + 3, y, Blank);
    SkipWhileExact(s, y, y, NotBreak);
  }

  /** A doc line right after the opening line stops the short body before
      any `</summary>`. */
  lemma DocLineStopsShortBody(s: string, i: nat, a: nat, c: nat, x: nat, n: nat)
    requires IsSummaryOpen(s, i, a, c) && c < x && Span(s, c, x, Blank) && LitAt(s, x, "///")
    ensures a + 13 <= |s| && ShortClose(s, a + 13, n, "</summary>").None?
  {
    var b: nat :| i < a && Span(s, i, a, Blank) && LitAt(s, a, "/// <summary>") && Span(s, a + 13, b, Blank) && BreakAt(s, b, c);
    LitAtHead(s, x, "///");
    assert Span(s, a + 13, x, BodyChar) by {
      forall m | a + 13 <= m < x
        ensures In(s[m], BodyChar)
      {
        if m < b {
          assert In(s[m], Blank);
        } else if c <= m {
          assert In(s[m], Blank);
        }
      }
    }
    SkipWhileExact(s, a + 13, x, BodyChar);
    LitAtExcludes(s, x, "///", "</summary>", 0);
  }

  /** A summary of two or more lines of text is matched by none of the three
      summary rules at its start: it is not one line, its content is not a
      short body, and not all its content lines are blank. */
  lemma LongSummaryUnmatched(s: string, i: nat, a: nat, g: nat, n: nat, nl: NewLine)
    requires i <= |s| && IsLongSummaryHead(s, i, a, g)
    ensures MatchSingleLineSummary(s, i, nl).None?
    ensures MatchShortSummary(s, i, n).None?
    ensures MatchEmptySummary(s, i).None?
  {
    var c: nat, h: nat :| IsSummaryOpen(s, i, a, c) && BlanksThenText(s, c, h) && BlanksThenText(s, h, g);
    LongSummaryNotSingleLine(s, i, a, c, h, g, nl);
    LongSummaryNotShort(s, i, a, c, h, n);
    LongSummaryNotEmpty(s, i, a, c, h);
  }

  /** The line after the first content line is not a closing line. */
  lemma LongSummaryNotSingleLine(s: string, i: nat, a: nat, c: nat, h: nat, g: nat, nl: NewLine)
    requires i <= |s| && IsSummaryOpen(s, i, a, c) && BlanksThenText(s, c, h) && BlanksThenText(s, h, g)
    ensures MatchSingleLineSummary(s, i, nl).None?
  {
    SummaryOpenExactly(s, i, a, c);
    FirstContentLine(s, c, h, g);
  }

  /** The `///` of the first content line ends the short body where no
      `</summary>` stands. */
  lemma LongSummaryNotShort(s: string, i: nat, a: nat, c: nat, h: nat, n: nat)
    requires i <= |s| && IsSummaryOpen(s, i, a, c) && BlanksThenText(s, c, h)
    ensures MatchShortSummary(s, i, n).None?
  {
    var b: nat :| i < a && Span(s, i, a, Blank) && LitAt(s, a, "/// <summary>") && Span(s, a + 13, b, Blank) && BreakAt(s, b, c);
    LitAtHead(s, a, "/// <summary>");
    SkipWhileExact(s, i, a, Blank);
    assert IndentedLit(s, i, "/// <summary>") == Some(a + 13);
    var x := DocLineHead(s, c, h);
    DocLineStopsShortBody(s, i, a, c, x, n);
  }

  /** The loop over blank doc lines stops at the first text line, which is
      not a closing line. */
  lemma LongSummaryNotEmpty(s: string, i: nat, a: nat, c: nat, h: nat)
    requires i <= |s| && IsSummaryOpen(s, i, a, c) && BlanksThenText(s, c, h)
    ensures MatchEmptySummary(s, i).None?
  {
    SummaryOpenExactly(s, i, a, c);
    var d: nat, e: nat, f: nat :| BlankDocLines(s, c, d) && IsTextLine(s, d, e, f, h);
    TextLineBounds(s, d, e, f, h);
    BlankDocLinesBefore(s, c, d, e, f, h);
    TextLineIsNotBlank(s, d, e, f, h);
    BlankDocRunStops(s, c, d);
    TextLineIsNoClose(s, d, e, f, h);
  }

  lemma TextLineBounds(s: string, d: nat, e: nat, f: nat, g: nat)
    requires IsTextLine(s, d, e, f, g)
    ensures d < e < f < g <= |s| && s[g - 1] == '\n'
  {
  }

  lemma {:induction false} BlankDocLinesBefore(s: string, p: nat, d: nat, e: nat, f: nat, g: nat)
    requires BlankDocLines(s, p, d) && IsTextLine(s, d, e, f, g)
    ensures p <= d < g <= |s|
    decreases d - p
  {
    TextLineBounds(s, d, e, f, g);
    if p != d {
      var r: nat :| p < r <= d && IsBlankDocLine(s, p, r) && BlankDocLines(s, r, d);
      BlankDocLinesBefore(s, r, d, e, f, g);
    }
  }

  /** A summary of two or more lines of text is left as it is by the three
      summary rules: none of them matches at any position from the start of
      its opening line to the end of its second text line, provided no
      second `/// <summary>` occurs in that stretch. */
  lemma LongSummaryKept(s: string, i: nat, a: nat, g: nat, n: nat, nl: NewLine)
    requires IsLongSummaryHead(s, i, a, g)
    requires forall q: nat | a < q < g :: !LitAt(s, q, "/// <summary>")
    ensures g <= |s|
    ensures forall p: nat | i <= p < g ::
      && MatchSingleLineSummary(s, p, nl).None?
      && MatchShortSummary(s, p, n).None?
      && MatchEmptySummary(s, p).None?
  {
    var c: nat, h: nat :| IsSummaryOpen(s, i, a, c) && BlanksThenText(s, c, h) && BlanksThenText(s, h, g);
    var d: nat, e: nat, f: nat :| BlankDocLines(s, h, d) && IsTextLine(s, d, e, f, g);
    TextLineBounds(s, d, e, f, g);
    forall p: nat | i <= p < g
      ensures MatchSingleLineSummary(s, p, nl).None?
      ensures MatchShortSummary(s, p, n).None?
      ensures MatchEmptySummary(s, p).None?
    {
      LongSummaryKeptAt(s, i, a, c, h, g, p, n, nl);
    }
  }

  lemma LongSummaryKeptAt(s: string, i: nat, a: nat, c: nat, h: nat, g: nat, p: nat, n: nat, nl: NewLine)
    requires IsSummaryOpen(s, i, a, c) && BlanksThenText(s, c, h) && BlanksThenText(s, h, g)
    requires forall q: nat | a < q < g :: !LitAt(s, q, "/// <summary>")
    requires i <= p < g <= |s| && s[g - 1] == '\n'
    ensures MatchSingleLineSummary(s, p, nl).None?
    ensures MatchShortSummary(s, p, n).None?
    ensures MatchEmptySummary(s, p).None?
  {
    if p < a {
      IndentSuffixOpens(s, i, a, c, p);
      LongSummaryUnmatched(s, p, a, g, n, nl);
    } else {
      NoOpeningAfter(s, p, g, n, nl);
    }
  }

  /** An opening line that starts at `i` also starts at every later position
      of its indentation. */
  lemma IndentSuffixOpens(s: string, i: nat, a: nat, c: nat, p: nat)
    requires IsSummaryOpen(s, i, a, c) && i <= p < a
    ensures IsSummaryOpen(s, p, a, c)
  {
  }

  /** The summary rules need `/// <summary>` after the blanks at `p`: where
      there is none before the next line feed, none of them matches. */
  lemma NoOpeningAfter(s: string, p: nat, g: nat, n: nat, nl: NewLine)
    requires p < g <= |s| && s[g - 1] == '\n'
    requires forall q: nat | p < q < g :: !LitAt(s, q, "/// <summary>")
    ensures MatchSingleLineSummary(s, p, nl).None?
    ensures MatchShortSummary(s, p, n).None?
    ensures MatchEmptySummary(s, p).None?
  {
    var x := SkipWhile(s, p, Blank);
    if x >= g {
      assert false;
    } else if p < x {
      assert !LitAt(s, x, "/// <summary>");
    }
    assert SummaryOpen(s, p).None? && IndentedLit(s, p, "/// <summary>").None?;
  }
}
