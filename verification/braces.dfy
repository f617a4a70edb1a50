// The two brace rules of CSharpCompressors.cs lines 20-21, applied last
// (lines 114-120): blank lines right after an opening brace and right before
// a closing brace are deleted.
module Braces {
  import opened Scan

  // `s[p..r]` is one blank line `[ \t]*\r?\n`.
  ghost predicate IsBlankLine(s: string, p: nat, r: nat) {
    exists y: nat :: Span(s, p, y, Blank) && BreakAt(s, y, r)
  }

  // `s[p..d]` is a run of blank lines `([ \t]*\r?\n)*`.
  ghost predicate BlankLines(s: string, p: nat, d: nat)
    decreases d - p
  {
    p == d || exists r: nat :: p < r <= d && IsBlankLine(s, p, r) && BlankLines(s, r, d)
  }

  // No blank line starts at `d`: a greedy run of blank lines cannot go on.
  ghost predicate NoBlankLineAt(s: string, d: nat) {
    forall r: nat :: !IsBlankLine(s, d, r)
  }

  /** Matches one blank line at `p`. */
  function BlankLine(s: string, p: nat): (r: Option<nat>)
    requires p <= |s|
    ensures r.Some? ==> p < r.value <= |s| && IsBlankLine(s, p, r.value)
  {
    var y := SkipWhile(s, p, Blank);
    match LineBreakAt(s, y)
    case None => None
    case Some(r) => Some(r)
  }

  /** The matcher finds exactly the blank line at `p`, and nothing where there is none. */
  lemma BlankLineExact(s: string, p: nat, r: nat)
    requires p <= |s|
    ensures BlankLine(s, p) == Some(r) <==> IsBlankLine(s, p, r)
  {
    if IsBlankLine(s, p, r) {
      var y: nat :| Span(s, p, y, Blank) && BreakAt(s, y, r);
      SkipWhileExact(s, p, y, Blank);
    }
  }

  lemma NoBlankLineExact(s: string, d: nat)
    requires d <= |s| && BlankLine(s, d).None?
    ensures NoBlankLineAt(s, d)
  {
    forall r: nat
      ensures !IsBlankLine(s, d, r)
    {
      BlankLineExact(s, d, r);
    }
  }

  /** The greedy loop `([ \t]*\r?\n)*`: it stops where no blank line starts. */
  function BlankRun(s: string, p: nat): (d: nat)
    requires p <= |s|
    ensures p <= d <= |s| && BlankLines(s, p, d) && BlankLine(s, d).None?
    decreases |s| - p
  {
    match BlankLine(s, p)
    case None => p
    case Some(r) =>
      var d := BlankRun(s, r);
      assert BlankLines(s, p, d) by {
        assert p < r <= d && IsBlankLine(s, p, r) && BlankLines(s, r, d);
      }
      d
  }

  /** A run of blank lines that cannot be extended is exactly what the loop takes. */
  lemma {:induction false} BlankRunExact(s: string, p: nat, d: nat)
    requires p <= d <= |s| && BlankLines(s, p, d) && NoBlankLineAt(s, d)
    ensures BlankRun(s, p) == d
    decreases d - p
  {
    if p < d {
      var r: nat :| p < r <= d && IsBlankLine(s, p, r) && BlankLines(s, r, d);
      BlankLineExact(s, p, r);
      BlankRunExact(s, r, d);
    } else {
      NoBlankLineHere(s, d);
    }
  }

  lemma NoBlankLineHere(s: string, d: nat)
    requires d <= |s| && NoBlankLineAt(s, d)
    ensures BlankLine(s, d).None?
  {
    var y := SkipWhile(s, d, Blank);
    assert !IsBlankLine(s, d, y + 1) && !IsBlankLine(s, d, y + 2);
  }

  // `s[i..j]` is in `{[ \t]*\r?\n([ \t]*\r?\n)+`, the `+` taking every blank
  // line there is; `s[i..c]` is the brace and the rest of its line.
  ghost predicate IsBlankLinesAfterBrace(s: string, i: nat, c: nat, j: nat) {
    && i < |s| && s[i] == '{' && IsBlankLine(s, i + 1, c)
    && c < j <= |s| && BlankLines(s, c, j) && NoBlankLineAt(s, j)
  }

  /** The rule of line 20, replaced by the brace line `${curly}` (line 116). */
  function MatchBlankLinesAfterBrace(s: string, i: nat): (r: Option<Found>)
    requires i <= |s|
    ensures r.Some? ==> i < r.value.end <= |s|
  {
    if i < |s| && s[i] == '{' then
      match BlankLine(s, i + 1)
      case None => None
      case Some(c) =>
        var j := BlankRun(s, c);
        if c < j then Some(Found(j, s[i..c])) else None
    else None
  }

  /** The rule keeps the brace line and deletes exactly the blank lines after
      it, all of them. */
  lemma BlankLinesAfterBraceExactly(s: string, i: nat, c: nat, j: nat)
    requires i <= c <= |s|
    ensures MatchBlankLinesAfterBrace(s, i) == Some(Found(j, s[i..c])) <==> IsBlankLinesAfterBrace(s, i, c, j)
  {
    if MatchBlankLinesAfterBrace(s, i) == Some(Found(j, s[i..c])) {
      var c' := AfterBraceSound(s, i);
      assert |s[i..c']| == |s[i..c]|;
    }
    if IsBlankLinesAfterBrace(s, i, c, j) {
      AfterBraceComplete(s, i, c, j);
    }
  }

  lemma AfterBraceSound(s: string, i: nat) returns (c: nat)
    requires i <= |s| && MatchBlankLinesAfterBrace(s, i).Some?
    ensures i <= c <= |s| && MatchBlankLinesAfterBrace(s, i).value.repl == s[i..c]
    ensures IsBlankLinesAfterBrace(s, i, c, MatchBlankLinesAfterBrace(s, i).value.end)
  {
    c := BlankLine(s, i + 1).value;
    NoBlankLineExact(s, BlankRun(s, c));
  }

  lemma AfterBraceComplete(s: string, i: nat, c: nat, j: nat)
    requires i <= c <= |s| && IsBlankLinesAfterBrace(s, i, c, j)
    ensures MatchBlankLinesAfterBrace(s, i) == Some(Found(j, s[i..c]))
  {
    BlankLineExact(s, i + 1, c);
    BlankRunExact(s, c, j);
  }

  // `s[i..j]` is in `\n([ \t]*\r?\n)+[ \t]*}`; `s[d..j]` is the indented brace.
  ghost predicate IsBlankLinesBeforeBrace(s: string, i: nat, d: nat, j: nat) {
    && i < |s| && s[i] == '\n' && i + 1 < d && BlankLines(s, i + 1, d)
    && d < j <= |s| && Span(s, d, j - 1, Blank) && s[j - 1] == '}'
  }

  /** The rule of line 21, replaced by a line feed and `${indentedCurly}` (line 117). */
  function MatchBlankLinesBeforeBrace(s: string, i: nat): (r: Option<Found>)
    requires i <= |s|
    ensures r.Some? ==> i < r.value.end <= |s|
  {
    if i < |s| && s[i] == '\n' then
      var d := BlankRun(s, i + 1);
      var e := SkipWhile(s, d, Blank);
      if i + 1 < d && e < |s| && s[e] == '}' then Some(Found(e + 1, "\n" + s[d..e + 1])) else None
    else None
  }

  /** A line of blanks ending in a brace is not a blank line, so the greedy
      `+` never has to give a line back. */
  lemma BraceLineIsNotBlank(s: string, d: nat, j: nat)
    requires d < j <= |s| && Span(s, d, j - 1, Blank) && s[j - 1] == '}'
    ensures NoBlankLineAt(s, d)
  {
    SkipWhileExact(s, d, j - 1, Blank);
    NoBlankLineExact(s, d);
  }

  /** The rule deletes exactly the blank lines between a line end and an
      indented closing brace, keeping one line feed and the brace line. */
  lemma BlankLinesBeforeBraceExactly(s: string, i: nat, d: nat, j: nat)
    requires i <= d <= j <= |s|
    ensures MatchBlankLinesBeforeBrace(s, i) == Some(Found(j, "\n" + s[d..j])) <==> IsBlankLinesBeforeBrace(s, i, d, j)
  {
    if MatchBlankLinesBeforeBrace(s, i) == Some(Found(j, "\n" + s[d..j])) {
      var d' := BeforeBraceSound(s, i);
      assert |("\n" + s[d'..j])| == |("\n" + s[d..j])|;
    }
    if IsBlankLinesBeforeBrace(s, i, d, j) {
      BeforeBraceComplete(s, i, d, j);
    }
  }

  lemma BeforeBraceSound(s: string, i: nat) returns (d: nat)
    requires i <= |s| && MatchBlankLinesBeforeBrace(s, i).Some?
    ensures d <= MatchBlankLinesBeforeBrace(s, i).value.end
    ensures MatchBlankLinesBeforeBrace(s, i).value.repl == "\n" + s[d..MatchBlankLinesBeforeBrace(s, i).value.end]
    ensures IsBlankLinesBeforeBrace(s, i, d, MatchBlankLinesBeforeBrace(s, i).value.end)
  {
    d := BlankRun(s, i + 1);
  }

  lemma BeforeBraceComplete(s: string, i: nat, d: nat, j: nat)
    requires IsBlankLinesBeforeBrace(s, i, d, j)
    ensures MatchBlankLinesBeforeBrace(s, i) == Some(Found(j, "\n" + s[d..j]))
  {
    BraceLineIsNotBlank(s, d, j);
    BlankRunExact(s, i + 1, d);
    SkipWhileExact(s, d, j - 1, Blank);
  }
}
