// The rules of CSharpCompressors.cs (the patterns of lines 18-30 and 36-37
// and the per-tag pattern of line 66) and `Regex.Replace`: a left-to-right
// scan that, at each position, either replaces the match found there and
// resumes after it, or copies one character. Every match is sought in the
// original text (the lookbehind of line 29 and the `\Z` of line 27 see the
// text as it was before any replacement) and no match is empty.
module Rules {
  import opened Scan
  import opened Replacing
  import Separators
  import Regions
  import Properties
  import DocTags
  import Summaries
  import CustomTags
  import Braces

  /** One find-and-replace rule, named after the field that holds its pattern. */
  datatype Rule =
    | OldStyleMethodSeparator                        // line 28
    | OldStyleMethodSeparatorPreprocessorDirectives  // line 29
    | OldStyleMethodSeparatorEndPreprocessorDirectives // line 30
    | RegionStartEnd                                 // line 27
    | MultilinePropertiesGetSet                      // line 25
    | MultilinePropertiesSetGet                      // line 26
    | VersionHistory                                 // line 22
    | EmptyParam(words: nat)                         // line 36
    | EmptyTypeParam                                 // line 18
    | EmptyReturns                                   // line 19
    | SingleLineSummary                              // line 23
    | SingleLineEmptySummary(words: nat)             // line 37
    | MultilineEmptySummary                          // line 24
    | RemoveTag(tag: string)                         // line 66
    | EmptyNewlineAfterCurlyStart                    // line 20
    | EmptyLinesBeforeCurlyEnd                       // line 21
  {
    /** The rules whose replacement is the empty string. */
    predicate Deletes() {
      || RegionStartEnd? || VersionHistory? || EmptyParam? || EmptyTypeParam? || EmptyReturns?
      || SingleLineEmptySummary? || MultilineEmptySummary? || RemoveTag?
    }

    /** The rules that can match where there is no comment or directive:
        the two property rules and the two brace rules. */
    predicate ActsOnCode() {
      MultilinePropertiesGetSet? || MultilinePropertiesSetGet? || EmptyNewlineAfterCurlyStart? || EmptyLinesBeforeCurlyEnd?
    }
  }

  /** The match of `rule` at position `i` of `s`, with its replacement. */
  function MatchAt(rule: Rule, s: string, i: nat, nl: NewLine): (r: Option<Found>)
    requires i <= |s|
    ensures r.Some? ==> i < r.value.end <= |s|
  {
    match rule
    case OldStyleMethodSeparator => Separators.MatchBetweenBlankLines(s, i, nl)
    case OldStyleMethodSeparatorPreprocessorDirectives => Separators.MatchAfterDirective(s, i, nl)
    case OldStyleMethodSeparatorEndPreprocessorDirectives => Separators.MatchBeforeEndDirective(s, i, nl)
    case RegionStartEnd => Regions.MatchRegionMarker(s, i)
    case MultilinePropertiesGetSet => Properties.MatchGetSet(s, i)
    case MultilinePropertiesSetGet => Properties.MatchSetGet(s, i)
    case VersionHistory => Regions.MatchVersionHistory(s, i)
    case EmptyParam(n) => DocTags.MatchShortParam(s, i, n)
    case EmptyTypeParam => DocTags.MatchEmptyTypeParam(s, i)
    case EmptyReturns => DocTags.MatchEmptyReturns(s, i)
    case SingleLineSummary => Summaries.MatchSingleLineSummary(s, i, nl)
    case SingleLineEmptySummary(n) => Summaries.MatchShortSummary(s, i, n)
    case MultilineEmptySummary => Summaries.MatchEmptySummary(s, i)
    case RemoveTag(tag) => CustomTags.MatchTag(s, i, tag)
    case EmptyNewlineAfterCurlyStart => Braces.MatchBlankLinesAfterBrace(s, i)
    case EmptyLinesBeforeCurlyEnd => Braces.MatchBlankLinesBeforeBrace(s, i)
  }

  /** A rule whose replacement is always empty only deletes text. */
  lemma MatchAtDeletes(rule: Rule, s: string, i: nat, nl: NewLine)
    requires i <= |s| && rule.Deletes() && MatchAt(rule, s, i, nl).Some?
    ensures MatchAt(rule, s, i, nl).value.repl == ""
  {
  }

  /** The match of the rule at every position of `s`. */
  function Matches(rule: Rule, s: string, nl: NewLine): (ms: seq<Option<Found>>)
    ensures IsMatchTable(s, ms)
    ensures forall p :: 0 <= p < |s| ==> ms[p] == MatchAt(rule, s, p, nl)
  {
    seq(|s|, p requires 0 <= p < |s| => MatchAt(rule, s, p, nl))
  }

  /** `Regex.Replace` of one rule over the whole text. */
  function Replace(rule: Rule, s: string, nl: NewLine): string {
    ReplaceFrom(s, Matches(rule, s, nl), 0)
  }

  /** A text in which the rule matches nowhere is left as it is. */
  lemma ReplaceWithoutMatch(rule: Rule, s: string, nl: NewLine)
    requires forall p: nat :: p < |s| ==> MatchAt(rule, s, p, nl).None?
    ensures Replace(rule, s, nl) == s
  {
    ReplaceCopies(s, Matches(rule, s, nl), 0, |s|);
  }

  /** A rule whose replacement is empty leaves a subsequence of its input. */
  lemma DeletingRuleKeepsSubsequence(rule: Rule, s: string, nl: NewLine)
    requires rule.Deletes()
    ensures IsSubsequence(Replace(rule, s, nl), s)
  {
    var ms := Matches(rule, s, nl);
    forall p | 0 <= p < |ms| && ms[p].Some?
      ensures ms[p].value.repl == ""
    {
      MatchAtDeletes(rule, s, p, nl);
    }
    DeletionsKeepSubsequence(s, ms, 0);
    assert s[0..] == s;
  }

  /** The characters every rule needs somewhere in its match: the `/` of a
      doc comment or separator, the `#` of a directive, or a brace. */
  predicate IsMark(c: char) {
    c == '/' || c == '#' || c == '{' || c == '}'
  }

  /** The `/` that begins a comment or separator and the `#` that begins a
      directive. */
  const CommentMarks: set<char> := {'/', '#'}

  /** Every match of every rule contains a mark. */
  lemma MatchHasMark(rule: Rule, s: string, i: nat, nl: NewLine) returns (k: nat)
    requires i <= |s| && MatchAt(rule, s, i, nl).Some?
    ensures i <= k < MatchAt(rule, s, i, nl).value.end && IsMark(s[k])
  {
    if !rule.ActsOnCode() {
      k := MatchHasCommentMark(rule, s, i, nl);
    } else {
      match rule
      case MultilinePropertiesGetSet => k := GetSetMark(s, i);
      case MultilinePropertiesSetGet => k := SetGetMark(s, i);
      case EmptyNewlineAfterCurlyStart => k := i;
      case EmptyLinesBeforeCurlyEnd => k := BeforeBraceMark(s, i);
    }
  }

  lemma SeparatorLineMark(s: string, a: nat) returns (k: nat)
    requires a <= |s| && Separators.SeparatorLine(s, a).Some?
    ensures a <= k < Separators.SeparatorLine(s, a).value && s[k] == '/'
  {
    k := SkipWhile(s, a, Blank);
    var b := SkipWhile(s, k, Slash);
    assert In(s[k], Slash);
  }

  lemma BetweenBlankLinesMark(s: string, i: nat, nl: NewLine) returns (k: nat)
    requires i <= |s| && Separators.MatchBetweenBlankLines(s, i, nl).Some?
    ensures i <= k < Separators.MatchBetweenBlankLines(s, i, nl).value.end && s[k] in CommentMarks
  {
    var (_, a) := LineBreaks(s, i);
    k := SeparatorLineMark(s, a);
  }

  lemma AfterDirectiveMark(s: string, i: nat, nl: NewLine) returns (k: nat)
    requires i <= |s| && Separators.MatchAfterDirective(s, i, nl).Some?
    ensures i <= k < Separators.MatchAfterDirective(s, i, nl).value.end && s[k] in CommentMarks
  {
    k := SeparatorLineMark(s, i);
  }

  lemma BeforeEndDirectiveMark(s: string, i: nat, nl: NewLine) returns (k: nat)
    requires i <= |s| && Separators.MatchBeforeEndDirective(s, i, nl).Some?
    ensures i <= k < Separators.MatchBeforeEndDirective(s, i, nl).value.end && s[k] in CommentMarks
  {
    var (_, a) := LineBreaks(s, i);
    k := SeparatorLineMark(s, a);
  }

  lemma RegionMarkerMark(s: string, i: nat) returns (k: nat)
    requires i <= |s| && Regions.MatchRegionMarker(s, i).Some?
    ensures i <= k < Regions.MatchRegionMarker(s, i).value.end && s[k] in CommentMarks
  {
    k := SkipWhile(s, i, Blank);
    if LitAt(s, k, "#region") {
      LitAtHead(s, k, "#region");
    } else {
      LitAtHead(s, k, "#endregion");
    }
  }

  lemma GetSetMark(s: string, i: nat) returns (k: nat)
    requires i <= |s| && Properties.MatchGetSet(s, i).Some?
    ensures i <= k < Properties.MatchGetSet(s, i).value.end && IsMark(s[k])
  {
    k := Properties.MatchGetSet(s, i).value.end - 1;
  }

  lemma SetGetMark(s: string, i: nat) returns (k: nat)
    requires i <= |s| && Properties.MatchSetGet(s, i).Some?
    ensures i <= k < Properties.MatchSetGet(s, i).value.end && IsMark(s[k])
  {
    k := Properties.MatchSetGet(s, i).value.end - 1;
  }

  lemma VersionHistoryMark(s: string, i: nat) returns (k: nat)
    requires i <= |s| && Regions.MatchVersionHistory(s, i).Some?
    ensures i <= k < Regions.MatchVersionHistory(s, i).value.end && s[k] in CommentMarks
  {
    k := SkipWhile(s, i, Blank);
    LitAtIgnoringCaseHead(s, k, "#region version history");
  }

  lemma IndentedLitMark(s: string, i: nat, w: string) returns (k: nat)
    requires i <= |s| && DocTags.IndentedLit(s, i, w).Some? && |w| > 0 && w[0] == '/'
    ensures i <= k < DocTags.IndentedLit(s, i, w).value && s[k] == '/'
  {
    k := SkipWhile(s, i, Blank);
    LitAtHead(s, k, w);
  }

  lemma ShortParamMark(s: string, i: nat, n: nat) returns (k: nat)
    requires i <= |s| && DocTags.MatchShortParam(s, i, n).Some?
    ensures i <= k < DocTags.MatchShortParam(s, i, n).value.end && s[k] in CommentMarks
  {
    k := IndentedLitMark(s, i, "/// <param name");
  }

  lemma EmptyTypeParamMark(s: string, i: nat) returns (k: nat)
    requires i <= |s| && DocTags.MatchEmptyTypeParam(s, i).Some?
    ensures i <= k < DocTags.MatchEmptyTypeParam(s, i).value.end && s[k] in CommentMarks
  {
    k := IndentedLitMark(s, i, "/// <typeparam name");
  }

  lemma EmptyReturnsMark(s: string, i: nat) returns (k: nat)
    requires i <= |s| && DocTags.MatchEmptyReturns(s, i).Some?
    ensures i <= k < DocTags.MatchEmptyReturns(s, i).value.end && s[k] in CommentMarks
  {
    k := IndentedLitMark(s, i, "/// <returns>");
  }

  lemma SummaryOpenMark(s: string, i: nat) returns (k: nat)
    requires i <= |s| && Summaries.SummaryOpen(s, i).Some?
    ensures i <= k < Summaries.SummaryOpen(s, i).value.1 && s[k] == '/'
  {
    k := SkipWhile(s, i, Blank);
    LitAtHead(s, k, "/// <summary>");
  }

  lemma SingleLineSummaryMark(s: string, i: nat, nl: NewLine) returns (k: nat)
    requires i <= |s| && Summaries.MatchSingleLineSummary(s, i, nl).Some?
    ensures i <= k < Summaries.MatchSingleLineSummary(s, i, nl).value.end && s[k] in CommentMarks
  {
    k := SummaryOpenMark(s, i);
  }

  lemma ShortSummaryMark(s: string, i: nat, n: nat) returns (k: nat)
    requires i <= |s| && Summaries.MatchShortSummary(s, i, n).Some?
    ensures i <= k < Summaries.MatchShortSummary(s, i, n).value.end && s[k] in CommentMarks
  {
    k := IndentedLitMark(s, i, "/// <summary>");
  }

  lemma EmptySummaryMark(s: string, i: nat) returns (k: nat)
    requires i <= |s| && Summaries.MatchEmptySummary(s, i).Some?
    ensures i <= k < Summaries.MatchEmptySummary(s, i).value.end && s[k] in CommentMarks
  {
    k := SummaryOpenMark(s, i);
  }

  lemma TagMark(s: string, i: nat, tag: string) returns (k: nat)
    requires i <= |s| && CustomTags.MatchTag(s, i, tag).Some?
    ensures i <= k < CustomTags.MatchTag(s, i, tag).value.end && s[k] in CommentMarks
  {
    var b;
    k, b := CustomTags.TagOpenParts(s, i);
    LitAtHead(s, k, "///");
  }

  lemma BeforeBraceMark(s: string, i: nat) returns (k: nat)
    requires i <= |s| && Braces.MatchBlankLinesBeforeBrace(s, i).Some?
    ensures i <= k < Braces.MatchBlankLinesBeforeBrace(s, i).value.end && IsMark(s[k])
  {
    k := Braces.MatchBlankLinesBeforeBrace(s, i).value.end - 1;
  }

  /** Text with no mark: no comment, directive or brace. */
  predicate IsPlain(s: string) {
    forall k :: 0 <= k < |s| ==> !IsMark(s[k])
  }

  /** No rule matches anywhere in plain text, so every rule leaves it as it is. */
  lemma PlainTextUnchanged(rule: Rule, s: string, nl: NewLine)
    requires IsPlain(s)
    ensures Replace(rule, s, nl) == s
  {
    forall p: nat | p < |s|
      ensures MatchAt(rule, s, p, nl).None?
    {
      if MatchAt(rule, s, p, nl).Some? {
        var k := MatchHasMark(rule, s, p, nl);
      }
    }
    ReplaceWithoutMatch(rule, s, nl);
  }

  /** Code: text with no comment, separator or directive. */
  predicate IsCode(s: string) {
    Avoids(s, CommentMarks)
  }

  /** Every match of a rule other than the property and brace rules contains
      a `/` or a `#`. */
  lemma MatchHasCommentMark(rule: Rule, s: string, i: nat, nl: NewLine) returns (k: nat)
    requires i <= |s| && !rule.ActsOnCode() && MatchAt(rule, s, i, nl).Some?
    ensures i <= k < MatchAt(rule, s, i, nl).value.end && s[k] in CommentMarks
  {
    match rule
    case OldStyleMethodSeparator => k := BetweenBlankLinesMark(s, i, nl);
    case OldStyleMethodSeparatorPreprocessorDirectives => k := AfterDirectiveMark(s, i, nl);
    case OldStyleMethodSeparatorEndPreprocessorDirectives => k := BeforeEndDirectiveMark(s, i, nl);
    case RegionStartEnd => k := RegionMarkerMark(s, i);
    case VersionHistory => k := VersionHistoryMark(s, i);
    case EmptyParam(n) => k := ShortParamMark(s, i, n);
    case EmptyTypeParam => k := EmptyTypeParamMark(s, i);
    case EmptyReturns => k := EmptyReturnsMark(s, i);
    case SingleLineSummary => k := SingleLineSummaryMark(s, i, nl);
    case SingleLineEmptySummary(n) => k := ShortSummaryMark(s, i, n);
    case MultilineEmptySummary => k := EmptySummaryMark(s, i);
    case RemoveTag(tag) => k := TagMark(s, i, tag);
  }

  /** A rule other than the property and brace rules matches nowhere in
      code, so it leaves code as it is. */
  lemma CodeUnchanged(rule: Rule, s: string, nl: NewLine)
    requires IsCode(s) && !rule.ActsOnCode()
    ensures Replace(rule, s, nl) == s
  {
    forall p: nat | p < |s|
      ensures MatchAt(rule, s, p, nl).None?
    {
      if MatchAt(rule, s, p, nl).Some? {
        var k := MatchHasCommentMark(rule, s, p, nl);
      }
    }
    ReplaceWithoutMatch(rule, s, nl);
  }

  /** The replacement of a property or brace rule in code holds no `/` or
      `#`: the property rules insert a fixed line, the brace rules keep
      pieces of the input. */
  lemma CodeReplacement(rule: Rule, s: string, p: nat, nl: NewLine)
    requires IsCode(s) && p <= |s| && rule.ActsOnCode() && MatchAt(rule, s, p, nl).Some?
    ensures Avoids(MatchAt(rule, s, p, nl).value.repl, CommentMarks)
  {
    match rule
    case MultilinePropertiesGetSet =>
      var m :| Properties.IsModifier(m) && MatchAt(rule, s, p, nl).value.repl == Properties.PropertyLine(m);
      PropertyLineIsCode(m);
    case MultilinePropertiesSetGet =>
      var m :| Properties.IsModifier(m) && MatchAt(rule, s, p, nl).value.repl == Properties.PropertyLine(m);
      PropertyLineIsCode(m);
    case EmptyNewlineAfterCurlyStart =>
      SliceAvoids(s, p, Braces.BlankLine(s, p + 1).value, CommentMarks);
    case EmptyLinesBeforeCurlyEnd =>
      var d := Braces.BlankRun(s, p + 1);
      SliceAvoids(s, d, SkipWhile(s, d, Blank) + 1, CommentMarks);
  }

  lemma PropertyLineIsCode(m: string)
    requires Properties.IsModifier(m)
    ensures Avoids(Properties.PropertyLine(m), CommentMarks)
  {
  }

  /** No rule brings a `/` or a `#` into code. */
  lemma CodeStaysCode(rule: Rule, s: string, nl: NewLine)
    requires IsCode(s)
    ensures IsCode(Replace(rule, s, nl))
  {
    if rule.ActsOnCode() {
      var ms := Matches(rule, s, nl);
      forall p | 0 <= p < |ms| && ms[p].Some?
        ensures Avoids(ms[p].value.repl, CommentMarks)
      {
        CodeReplacement(rule, s, p, nl);
      }
      ReplaceAvoids(s, ms, 0, CommentMarks);
    } else {
      CodeUnchanged(rule, s, nl);
    }
  }
}
