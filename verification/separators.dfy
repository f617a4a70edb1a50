/**
 * The three "old style method separator" rules (CSharpCompressors.cs lines
 * 28-30, applied in that order by `OldStyleMethodSeparators`, lines 80-86): a
 * line of seven or more slashes used to divide methods is collapsed together
 * with the empty lines around it.
 */
module Separators {
  import opened Scan

  // `s[i..j]` is a decorative separator line: indentation, seven or more
  // slashes, trailing blanks and its terminator (`[ \t]*///////+[ \t]*\r?\n`).
  ghost predicate IsSeparatorLine(s: string, i: nat, j: nat) {
    exists a: nat, b: nat, c: nat ::
      && Span(s, i, a, Blank) && a + 7 <= b && Span(s, a, b, Slash)
      && Span(s, b, c, Blank) && BreakAt(s, c, j)
  }

  // Matches `[ \t]*///////+[ \t]*\r?\n` at `i`, giving the end of the line.
  function SeparatorLine(s: string, i: nat): (r: Option<nat>)
    requires i <= |s|
  {
    var a := SkipWhile(s, i, Blank);
    var b := SkipWhile(s, a, Slash);
    if b < a + 7 then None else LineBreakAt(s, SkipWhile(s, b, Blank))
  }

  /** The matcher finds a separator line exactly where there is one. */
  lemma SeparatorLineExactly(s: string, i: nat, j: nat)
    requires i <= |s|
    ensures SeparatorLine(s, i) == Some(j) <==> IsSeparatorLine(s, i, j)
  {
    if IsSeparatorLine(s, i, j) {
      var a: nat, b: nat, c: nat :| Span(s, i, a, Blank) && a + 7 <= b && Span(s, a, b, Slash)
        && Span(s, b, c, Blank) && BreakAt(s, c, j);
      SkipWhileExact(s, i, a, Blank);
      SkipWhileExact(s, a, b, Slash);
      SkipWhileExact(s, b, c, Blank);
    }
  }

  /** A separator line starts with a blank or a slash, never with a terminator. */
  lemma SeparatorLineStart(s: string, i: nat, j: nat)
    requires IsSeparatorLine(s, i, j)
    ensures i < |s| && (IsBlank(s[i]) || s[i] == '/') && !StartsWithBreak(s, i)
  {
    var a: nat, b: nat, c: nat :| Span(s, i, a, Blank) && a + 7 <= b && Span(s, a, b, Slash)
      && Span(s, b, c, Blank) && BreakAt(s, c, j);
    if a == i {
      assert s[i] == '/';
    }
  }

  // `s[i..j]` is a separator line followed by one or more empty lines
  // (`[ \t]*///////+[ \t]*\r?\n(\r?\n)+`).
  ghost predicate IsSeparatorThenBlankLines(s: string, i: nat, j: nat) {
    exists b: nat, q: nat :: IsSeparatorLine(s, i, b) && q >= 1 && Breaks(s, b, j, q)
  }

  // `s[i..j]` is in `(\r?\n){2,}[ \t]*///////+[ \t]*\r?\n(\r?\n)+`: at least
  // two line breaks, then a separator line and the empty lines after it.
  ghost predicate IsFreeSeparator(s: string, i: nat, j: nat) {
    exists a: nat, p: nat :: p >= 2 && Breaks(s, i, a, p) && IsSeparatorThenBlankLines(s, a, j)
  }

  /** The rule of line 28, replaced by two new-lines (line 82). */
  function MatchBetweenBlankLines(s: string, i: nat, nl: NewLine): (r: Option<Found>)
    requires i <= |s|
    ensures r.Some? ==> i < r.value.end <= |s| && r.value.repl == nl.Text() + nl.Text()
  {
    var (p, a) := LineBreaks(s, i);
    if p < 2 then None
    else
      match SeparatorLine(s, a)
      case None => None
      case Some(b) =>
        var (q, j) := LineBreaks(s, b);
        if q == 0 then None else Some(Found(j, nl.Text() + nl.Text()))
  }

  /** The rule consumes a free-standing separator with all the empty lines
      around it, and nothing else. */
  lemma BetweenBlankLinesExactly(s: string, i: nat, nl: NewLine, j: nat)
    requires i <= |s|
    ensures MatchBetweenBlankLines(s, i, nl) == Some(Found(j, nl.Text() + nl.Text()))
        <==> IsFreeSeparator(s, i, j) && !StartsWithBreak(s, j)
  {
    var (p, a) := LineBreaks(s, i);
    if MatchBetweenBlankLines(s, i, nl) == Some(Found(j, nl.Text() + nl.Text())) {
      var b := SeparatorLine(s, a).value;
      SeparatorLineExactly(s, a, b);
    }
    if IsFreeSeparator(s, i, j) && !StartsWithBreak(s, j) {
      var a': nat, p': nat :| p' >= 2 && Breaks(s, i, a', p') && IsSeparatorThenBlankLines(s, a', j);
      var b: nat, q: nat :| IsSeparatorLine(s, a', b) && q >= 1 && Breaks(s, b, j, q);
      SeparatorLineStart(s, a', b);
      LineBreaksExact(s, i, a', p');
      SeparatorLineExactly(s, a', b);
      BreaksEnd(s, b, j, q);
      LineBreaksExact(s, b, j, q);
    }
  }

  /** A run of terminators stays inside the text. */
  lemma {:induction false} BreaksEnd(s: string, i: nat, j: nat, n: nat)
    requires i <= |s| && Breaks(s, i, j, n)
    ensures i <= j <= |s|
    decreases n
  {
    if n > 0 {
      if BreakAt(s, i, i + 1) && Breaks(s, i + 1, j, n - 1) {
        BreaksEnd(s, i + 1, j, n - 1);
      } else {
        BreaksEnd(s, i + 2, j, n - 1);
      }
    }
  }

  // `(?<=(#if|#region) \w*[ \t]*(\r?\n))` at `i`: the text before `i` ends
  // with an `#if` or `#region` directive line.
  ghost predicate EndsWithDirectiveLine(s: string, i: nat) {
    exists a: nat, b: nat, c: nat, d: nat ::
      && ((LitAt(s, a, "#if ") && b == a + 4) || (LitAt(s, a, "#region ") && b == a + 8))
      && Span(s, b, c, Word) && Span(s, c, d, Blank) && BreakAt(s, d, i)
  }

  /** `#if` or `#region` ends just before `e`. */
  predicate KeywordEndsAt(s: string, e: nat) {
    (e >= 3 && LitAt(s, e - 3, "#if")) || (e >= 7 && LitAt(s, e - 7, "#region"))
  }

  /** The lookbehind of line 29, evaluated right to left as .NET does: the
      terminator, the greedy blanks, the greedy word, then the space and the
      keyword; when that fails, the blanks give back all but their first
      character, which then serves as the space. */
  predicate DirectiveBefore(s: string, i: nat)
    requires i <= |s|
  {
    && i >= 1 && s[i - 1] == '\n'
    && var d := if i >= 2 && s[i - 2] == '\r' then i - 2 else i - 1;
       var p := BackWhile(s, 0, d, Blank);
       var w := BackWhile(s, 0, p, Word);
       || (w >= 1 && s[w - 1] == ' ' && KeywordEndsAt(s, w - 1))
       || (p < d && s[p] == ' ' && KeywordEndsAt(s, p))
  }

  /** The right-to-left evaluation accepts exactly the texts that end with a directive line. */
  lemma DirectiveBeforeExactly(s: string, i: nat)
    requires i <= |s|
    ensures DirectiveBefore(s, i) <==> EndsWithDirectiveLine(s, i)
  {
    if DirectiveBefore(s, i) {
      DirectiveBeforeSound(s, i);
    }
    if EndsWithDirectiveLine(s, i) {
      DirectiveBeforeComplete(s, i);
    }
  }

  lemma DirectiveBeforeSound(s: string, i: nat)
    requires i <= |s| && DirectiveBefore(s, i)
    ensures EndsWithDirectiveLine(s, i)
  {
    var d := if i >= 2 && s[i - 2] == '\r' then i - 2 else i - 1;
    var p := BackWhile(s, 0, d, Blank);
    var w := BackWhile(s, 0, p, Word);
    if w >= 1 && s[w - 1] == ' ' && KeywordEndsAt(s, w - 1) {
      var a := if w - 1 >= 3 && LitAt(s, w - 4, "#if") then w - 4 else w - 8;
      KeywordThenSpace(s, a, w - 1);
      DirectiveLine(s, a, w, p, d, i);
    } else {
      var a := if p >= 3 && LitAt(s, p - 3, "#if") then p - 3 else p - 7;
      KeywordThenSpace(s, a, p);
      DirectiveLine(s, a, p + 1, p + 1, d, i);
    }
  }

  lemma DirectiveLine(s: string, a: nat, b: nat, c: nat, d: nat, i: nat)
    requires (LitAt(s, a, "#if ") && b == a + 4) || (LitAt(s, a, "#region ") && b == a + 8)
    requires Span(s, b, c, Word) && Span(s, c, d, Blank) && BreakAt(s, d, i)
    ensures EndsWithDirectiveLine(s, i)
  {
  }

  /** A keyword followed by a space is the literal the pattern starts with. */
  lemma KeywordThenSpace(s: string, a: nat, e: nat)
    requires e < |s| && s[e] == ' '
    requires (a + 3 == e && LitAt(s, a, "#if")) || (a + 7 == e && LitAt(s, a, "#region"))
    ensures (LitAt(s, a, "#if ") && e + 1 == a + 4) || (LitAt(s, a, "#region ") && e + 1 == a + 8)
  {
    assert LitAt(s, e, " ");
    assert "#if " == "#if" + " " && "#region " == "#region" + " ";
    LitAtAppend(s, a, "#if", " ");
    LitAtAppend(s, a, "#region", " ");
  }

  lemma DirectiveBeforeComplete(s: string, i: nat)
    requires i <= |s| && EndsWithDirectiveLine(s, i)
    ensures DirectiveBefore(s, i)
  {
    var a: nat, b: nat, c: nat, d: nat :| ((LitAt(s, a, "#if ") && b == a + 4) || (LitAt(s, a, "#region ") && b == a + 8))
      && Span(s, b, c, Word) && Span(s, c, d, Blank) && BreakAt(s, d, i);
    KeywordBeforeSpace(s, a, b);
    DirectiveTerminator(s, b, c, d, i);
    var p := BackWhile(s, 0, d, Blank);
    if c == p {
      BackWhileExact(s, 0, b, p, Word);
      DirectiveByWord(s, i, b);
    } else {
      SpaceAmongBlanks(s, b, c, d, p);
      DirectiveByBlank(s, i, p);
    }
  }

  lemma DirectiveByWord(s: string, i: nat, w: nat)
    requires 1 <= i <= |s| && s[i - 1] == '\n'
    requires var d := if i >= 2 && s[i - 2] == '\r' then i - 2 else i - 1;
      w == BackWhile(s, 0, BackWhile(s, 0, d, Blank), Word)
    requires w >= 1 && s[w - 1] == ' ' && KeywordEndsAt(s, w - 1)
    ensures DirectiveBefore(s, i)
  {
  }

  lemma DirectiveByBlank(s: string, i: nat, p: nat)
    requires 1 <= i <= |s| && s[i - 1] == '\n'
    requires var d := if i >= 2 && s[i - 2] == '\r' then i - 2 else i - 1;
      p == BackWhile(s, 0, d, Blank) && p < d
    requires s[p] == ' ' && KeywordEndsAt(s, p)
    ensures DirectiveBefore(s, i)
  {
  }

  /** The terminator of a directive line is the one the lookbehind reads first. */
  lemma DirectiveTerminator(s: string, b: nat, c: nat, d: nat, i: nat)
    requires 2 <= b && Span(s, b, c, Word) && Span(s, c, d, Blank) && BreakAt(s, d, i) && s[b - 1] == ' '
    ensures i >= 1 && s[i - 1] == '\n' && d == (if i >= 2 && s[i - 2] == '\r' then i - 2 else i - 1)
  {
    assert IsBlank(s[d - 1]) || IsWord(s[d - 1]) by {
      if c < d {
        assert IsBlank(s[d - 1]);
      } else if b < c {
        assert IsWord(s[c - 1]);
      }
    }
  }

  /** When the greedy blanks reach past the word, the word is empty and the
      space after the keyword is the first of the blanks. */
  lemma SpaceAmongBlanks(s: string, b: nat, c: nat, d: nat, p: nat)
    requires 2 <= b && Span(s, b, c, Word) && Span(s, c, d, Blank) && IsWord(s[b - 2])
    requires d <= |s| && p == BackWhile(s, 0, d, Blank) && p != c
    ensures b == c && p == b - 1
  {
    assert IsBlank(s[c - 1]);
  }

  /** The literal `#if ` or `#region ` ending at `b` puts a space at `b - 1`
      and a keyword, whose last character is a word character, before it. */
  lemma KeywordBeforeSpace(s: string, a: nat, b: nat)
    requires (LitAt(s, a, "#if ") && b == a + 4) || (LitAt(s, a, "#region ") && b == a + 8)
    ensures 2 <= b <= |s| && s[b - 1] == ' ' && IsWord(s[b - 2]) && KeywordEndsAt(s, b - 1)
  {
    assert "#if " == "#if" + " " && "#region " == "#region" + " ";
    LitAtAppend(s, a, "#if", " ");
    LitAtAppend(s, a, "#region", " ");
    if b == a + 4 {
      assert s[a + 2] == "#if"[2];
    } else {
      assert s[a + 6] == "#region"[6];
    }
    assert s[b - 1] == " "[0];
  }

  /** The rule of line 29, replaced by one new-line (line 83). */
  function MatchAfterDirective(s: string, i: nat, nl: NewLine): (r: Option<Found>)
    requires i <= |s|
    ensures r.Some? ==> i < r.value.end <= |s| && r.value.repl == nl.Text()
  {
    if !DirectiveBefore(s, i) then None
    else
      match SeparatorLine(s, i)
      case None => None
      case Some(b) =>
        var (q, j) := LineBreaks(s, b);
        if q == 0 then None else Some(Found(j, nl.Text()))
  }

  /** The rule fires exactly after an `#if` or `#region` line, on a separator
      line and all the empty lines after it. */
  lemma AfterDirectiveExactly(s: string, i: nat, nl: NewLine, j: nat)
    requires i <= |s|
    ensures MatchAfterDirective(s, i, nl) == Some(Found(j, nl.Text()))
        <==> EndsWithDirectiveLine(s, i) && IsSeparatorThenBlankLines(s, i, j) && !StartsWithBreak(s, j)
  {
    DirectiveBeforeExactly(s, i);
    if MatchAfterDirective(s, i, nl) == Some(Found(j, nl.Text())) {
      SeparatorLineExactly(s, i, SeparatorLine(s, i).value);
    }
    if EndsWithDirectiveLine(s, i) && IsSeparatorThenBlankLines(s, i, j) && !StartsWithBreak(s, j) {
      var b: nat, q: nat :| IsSeparatorLine(s, i, b) && q >= 1 && Breaks(s, b, j, q);
      SeparatorLineExactly(s, i, b);
      LineBreaksExact(s, b, j, q);
    }
  }

  // `s[i..j]` is in `(\r?\n){2,}[ \t]*///////+[ \t]*\r?\n[ \t]*`: empty
  // lines, a separator line and the indentation of the line after it.
  ghost predicate IsSeparatorBeforeEnd(s: string, i: nat, j: nat) {
    exists a: nat, b: nat, p: nat :: p >= 2 && Breaks(s, i, a, p) && IsSeparatorLine(s, a, b) && Span(s, b, j, Blank)
  }

  /** The lookahead `(?=(#endif|#endregion))`. */
  predicate ClosingDirectiveAt(s: string, j: nat) {
    LitAt(s, j, "#endif") || LitAt(s, j, "#endregion")
  }

  /** The rule of line 30, replaced by two new-lines (line 84). The closing
      directive is looked at but not consumed. */
  function MatchBeforeEndDirective(s: string, i: nat, nl: NewLine): (r: Option<Found>)
    requires i <= |s|
    ensures r.Some? ==> i < r.value.end <= |s| && r.value.repl == nl.Text() + nl.Text()
  {
    var (p, a) := LineBreaks(s, i);
    if p < 2 then None
    else
      match SeparatorLine(s, a)
      case None => None
      case Some(b) =>
        var j := SkipWhile(s, b, Blank);
        if ClosingDirectiveAt(s, j) then Some(Found(j, nl.Text() + nl.Text())) else None
  }

  /** The rule consumes exactly the empty lines, the separator and the
      indentation in front of an `#endif` or `#endregion`. */
  lemma BeforeEndDirectiveExactly(s: string, i: nat, nl: NewLine, j: nat)
    requires i <= |s|
    ensures MatchBeforeEndDirective(s, i, nl) == Some(Found(j, nl.Text() + nl.Text()))
        <==> IsSeparatorBeforeEnd(s, i, j) && ClosingDirectiveAt(s, j)
  {
    var (p, a) := LineBreaks(s, i);
    if MatchBeforeEndDirective(s, i, nl) == Some(Found(j, nl.Text() + nl.Text())) {
      SeparatorLineExactly(s, a, SeparatorLine(s, a).value);
    }
    if IsSeparatorBeforeEnd(s, i, j) && ClosingDirectiveAt(s, j) {
      var a': nat, b: nat, p': nat :| p' >= 2 && Breaks(s, i, a', p') && IsSeparatorLine(s, a', b) && Span(s, b, j, Blank);
      SeparatorLineStart(s, a', b);
      LineBreaksExact(s, i, a', p');
      SeparatorLineExactly(s, a', b);
      assert s[j] == '#' by {
        if LitAt(s, j, "#endif") {
          assert s[j + 0] == "#endif"[0];
        } else {
          assert s[j + 0] == "#endregion"[0];
        }
      }
      SkipWhileExact(s, b, j, Blank);
    }
  }
}
