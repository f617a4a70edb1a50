/**
 * Building blocks shared by every rewrite rule of the compressor: the regex
 * character classes the patterns use, maximal runs of a class (what a greedy
 * `[...]*` consumes), literal tests and line terminators (`\r?\n`).
 *
 * Text is `string`, i.e. `seq<char>`. Every matcher works on the whole text
 * and a position in it, so that a lookbehind can see what precedes the scan
 * position and a lookahead what follows the match.
 */
module Scan {

  datatype Option<T> = None | Some(value: T)

  /** A match that starts at the scan position: where it ends in the text
      and the text that replaces it. */
  datatype Found = Found(end: nat, repl: string)

  /** `Environment.NewLine`, which some replacements insert: a platform
      setting, so a parameter of the model. */
  datatype NewLine = Lf | CrLf {
    function Text(): string {
      if this == Lf then "\n" else "\r\n"
    }
  }

  /** The character classes the patterns use. */
  datatype Class =
    | Blank       // `[ \t]`
    | Space       // `\s` as .NET defines it: `[\f\n\r\t\v\x85\p{Z}]`
    | Word        // `\w`, restricted to ASCII letters, digits and the underscore
    | NotLineFeed // `[^\n]`, and `.` in single-line mode when it stops at a line feed
    | NotBreak    // `[^\r\n]`
    | NotQuote    // `[^"]`
    | Slash       // `/`
    | BreakChar   // `[\r\n]`, the characters of `(\r\n?|\n)+`
    | NameChar    // `[ \t]` or `\w`, what `([ \t]*\w*)+` consumes
    | BodyChar    // `\s`, `\w` or `.`, what `\s*(\w*\s*){0,N}\.?\s*` consumes
    | SpaceOrWord // `\s` or `\w`

  predicate IsBlank(c: char) {
    c == ' ' || c == '\t'
  }

  predicate IsSpace(c: char) {
    || c == ' ' || c == '\t' || c == '\n' || c == '\r'
    || c == '\U{0B}' || c == '\U{0C}' || c == '\U{85}' || c == '\U{A0}'
    || c == '\U{1680}' || ('\U{2000}' <= c <= '\U{200A}')
    || c == '\U{2028}' || c == '\U{2029}' || c == '\U{202F}'
    || c == '\U{205F}' || c == '\U{3000}'
  }

  predicate IsWord(c: char) {
    ('a' <= c <= 'z') || ('A' <= c <= 'Z') || ('0' <= c <= '9') || c == '_'
  }

  predicate In(c: char, k: Class) {
    match k
    case Blank => IsBlank(c)
    case Space => IsSpace(c)
    case Word => IsWord(c)
    case NotLineFeed => c != '\n'
    case NotBreak => c != '\r' && c != '\n'
    case NotQuote => c != '"'
    case Slash => c == '/'
    case BreakChar => c == '\r' || c == '\n'
    case NameChar => IsBlank(c) || IsWord(c)
    case BodyChar => IsSpace(c) || IsWord(c) || c == '.'
    case SpaceOrWord => IsSpace(c) || IsWord(c)
  }

  /** Every character of `s[i..j]` belongs to class `k`. */
  predicate Span(s: string, i: nat, j: nat, k: Class) {
    i <= j <= |s| && forall m | i <= m < j :: In(s[m], k)
  }

  /** ASCII lower-casing, the model of `RegexOptions.IgnoreCase` under the invariant culture. */
  function Lower(c: char): char {
    if 'A' <= c <= 'Z' then (c as int + 32) as char else c
  }

  /** The text at `i` begins with the literal `w`. */
  predicate LitAt(s: string, i: nat, w: string) {
    i + |w| <= |s| && forall m | 0 <= m < |w| :: s[i + m] == w[m]
  }

  /** Consecutive literals are one literal. */
  lemma LitAtAppend(s: string, i: nat, v: string, w: string)
    ensures LitAt(s, i, v + w) <==> LitAt(s, i, v) && LitAt(s, i + |v|, w)
  {
    if LitAt(s, i, v) && LitAt(s, i + |v|, w) {
      forall m | 0 <= m < |v + w|
        ensures s[i + m] == (v + w)[m]
      {
        if m >= |v| {
          assert s[i + |v| + (m - |v|)] == w[m - |v|];
        }
      }
    }
    if LitAt(s, i, v + w) {
      forall m | 0 <= m < |v|
        ensures s[i + m] == v[m]
      {
        assert s[i + m] == (v + w)[m];
      }
      forall m | 0 <= m < |w|
        ensures s[i + |v| + m] == w[m]
      {
        assert s[i + (|v| + m)] == (v + w)[|v| + m];
      }
    }
  }

  /** The first character of a literal. */
  lemma LitAtHead(s: string, i: nat, w: string)
    requires LitAt(s, i, w) && |w| > 0
    ensures i < |s| && s[i] == w[0]
  {
    assert s[i + 0] == w[0];
  }

  /** Two literals that differ at some position cannot both begin at `i`. */
  lemma LitAtExcludes(s: string, i: nat, v: string, w: string, m: nat)
    requires LitAt(s, i, v) && m < |v| && m < |w| && v[m] != w[m]
    ensures !LitAt(s, i, w)
  {
    assert s[i + m] == v[m];
  }

  /** The text at `i` begins with `w`, case ignored. */
  predicate LitAtIgnoringCase(s: string, i: nat, w: string) {
    i + |w| <= |s| && forall m | 0 <= m < |w| :: Lower(s[i + m]) == Lower(w[m])
  }

  /** The first character of a literal, case ignored. */
  lemma LitAtIgnoringCaseHead(s: string, i: nat, w: string)
    requires LitAtIgnoringCase(s, i, w) && |w| > 0
    ensures i < |s| && Lower(s[i]) == Lower(w[0])
  {
    assert Lower(s[i + 0]) == Lower(w[0]);
  }

  /** The end of the longest run of class `k` starting at `i`: what a greedy
      `[...]*` consumes (and what `[...]+` consumes when it is not empty). */
  function SkipWhile(s: string, i: nat, k: Class): (j: nat)
    requires i <= |s|
    ensures i <= j <= |s| && Span(s, i, j, k)
    ensures j == |s| || !In(s[j], k)
    decreases |s| - i
  {
    if i < |s| && In(s[i], k) then SkipWhile(s, i + 1, k) else i
  }

  /** A run of class `k` that cannot be extended is exactly what `SkipWhile` finds. */
  lemma SkipWhileExact(s: string, i: nat, j: nat, k: Class)
    requires Span(s, i, j, k) && (j == |s| || !In(s[j], k))
    ensures SkipWhile(s, i, k) == j
  {
    var r := SkipWhile(s, i, k);
    if r < j {
      assert false;
    } else if r > j {
      assert false;
    }
  }

  /** A greedy run reaches at least as far as any run of its class. */
  lemma SkipWhileCovers(s: string, i: nat, j: nat, k: Class)
    requires Span(s, i, j, k)
    ensures j <= SkipWhile(s, i, k)
  {
    var r := SkipWhile(s, i, k);
    if r < j {
      assert false;
    }
  }

  /** The start of the longest run of class `k` that ends at `j` without
      reaching below `lo`: a greedy run read right to left, as a lookbehind
      reads it. */
  function BackWhile(s: string, lo: nat, j: nat, k: Class): (i: nat)
    requires lo <= j <= |s|
    ensures lo <= i <= j && Span(s, i, j, k)
    ensures i == lo || !In(s[i - 1], k)
    decreases j
  {
    if lo < j && In(s[j - 1], k) then BackWhile(s, lo, j - 1, k) else j
  }

  /** A run of class `k` that cannot be extended to the left is exactly what `BackWhile` finds. */
  lemma BackWhileExact(s: string, lo: nat, i: nat, j: nat, k: Class)
    requires lo <= i && Span(s, i, j, k) && (i == lo || !In(s[i - 1], k))
    ensures BackWhile(s, lo, j, k) == i
  {
    var r := BackWhile(s, lo, j, k);
    if r < i {
      assert false;
    } else if r > i {
      assert false;
    }
  }

  /** A run read right to left stops above a character outside its class. */
  lemma BackWhileStops(s: string, lo: nat, x: nat, j: nat, k: Class)
    requires lo <= x < j <= |s| && !In(s[x], k)
    ensures x < BackWhile(s, lo, j, k)
  {
    var r := BackWhile(s, lo, j, k);
    if r <= x {
      assert false;
    }
  }

  /** `s[i..j]` is one line terminator `\r?\n`. */
  predicate BreakAt(s: string, i: nat, j: nat) {
    || (j == i + 1 && i < |s| && s[i] == '\n')
    || (j == i + 2 && i + 1 < |s| && s[i] == '\r' && s[i + 1] == '\n')
  }

  /** A line terminator begins at `i`. */
  predicate StartsWithBreak(s: string, i: nat) {
    || (i < |s| && s[i] == '\n')
    || (i + 1 < |s| && s[i] == '\r' && s[i + 1] == '\n')
  }

  /** Matches `\r?\n` at `i`, giving the position after it. */
  function LineBreakAt(s: string, i: nat): (r: Option<nat>)
    ensures r.Some? ==> BreakAt(s, i, r.value)
    ensures r.None? ==> !StartsWithBreak(s, i)
  {
    if i < |s| && s[i] == '\n' then Some(i + 1)
    else if i + 1 < |s| && s[i] == '\r' && s[i + 1] == '\n' then Some(i + 2)
    else None
  }

  /** `s[i..j]` is exactly `n` line terminators: it is in `(\r?\n){n}`. */
  predicate Breaks(s: string, i: nat, j: nat, n: nat)
    decreases n
  {
    if n == 0 then i == j
    else
      || (BreakAt(s, i, i + 1) && Breaks(s, i + 1, j, n - 1))
      || (BreakAt(s, i, i + 2) && Breaks(s, i + 2, j, n - 1))
  }

  /** Greedy `(\r?\n)*` at `i`: how many terminators follow and where they end. */
  function LineBreaks(s: string, i: nat): (r: (nat, nat))
    requires i <= |s|
    ensures i <= r.1 <= |s| && Breaks(s, i, r.1, r.0)
    ensures !StartsWithBreak(s, r.1)
    decreases |s| - i
  {
    match LineBreakAt(s, i)
    case None => (0, i)
    case Some(j) =>
      var (n, k) := LineBreaks(s, j);
      (n + 1, k)
  }

  /** A run of `n` terminators that is not followed by another one is exactly
      what `LineBreaks` finds. */
  lemma {:induction false} LineBreaksExact(s: string, i: nat, j: nat, n: nat)
    requires i <= |s| && Breaks(s, i, j, n) && !StartsWithBreak(s, j)
    ensures LineBreaks(s, i) == (n, j)
    decreases n
  {
    if n > 0 {
      if BreakAt(s, i, i + 1) && Breaks(s, i + 1, j, n - 1) {
        LineBreaksExact(s, i + 1, j, n - 1);
      } else {
        LineBreaksExact(s, i + 2, j, n - 1);
      }
    }
  }

  /** `s[i..j]` is the rest of a line with its line feed: it is in `[^\n]*\n`. */
  predicate LineRest(s: string, i: nat, j: nat) {
    i < j <= |s| && Span(s, i, j - 1, NotLineFeed) && s[j - 1] == '\n'
  }

  /** Matches `[^\n]*\n` at `i`, giving the position after the line feed. */
  function RestOfLine(s: string, i: nat): (r: Option<nat>)
    requires i <= |s|
    ensures r.Some? ==> LineRest(s, i, r.value)
    ensures r.None? ==> Span(s, i, |s|, NotLineFeed)
  {
    var k := SkipWhile(s, i, NotLineFeed);
    if k < |s| then Some(k + 1) else None
  }

  /** The rest of a line is exactly what `RestOfLine` consumes. */
  lemma RestOfLineExact(s: string, i: nat, j: nat)
    requires LineRest(s, i, j)
    ensures RestOfLine(s, i) == Some(j)
  {
    SkipWhileExact(s, i, j - 1, NotLineFeed);
  }
}
