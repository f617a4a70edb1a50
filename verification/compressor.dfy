// `CSharpCompressors.Compress` (CSharpCompressors.cs lines 41-60): the rules
// applied one after another, each to the whole text, in the order of the
// source. The options are the four fields the class reads; the rules built
// from them in the constructor (lines 32-39) and in `RemoveTags` (62-78)
// are values of `Rule` here.
module Compressor {
  import opened Scan
  import opened Replacing
  import opened Rules

  /** The settings `CSharpCompressors` reads. */
  datatype Options = Options(
    removeRegions: bool,
    removeTags: seq<string>,
    removeParamNameUptoNWords: nat,
    removeSummaryUptoNWords: nat)

  /** Applies the rules in order, each to the output of the one before. */
  function ApplyAll(rules: seq<Rule>, s: string, nl: NewLine): string
    decreases |rules|
  {
    if |rules| == 0 then s else ApplyAll(rules[1..], Replace(rules[0], s, nl), nl)
  }

  /** `OldStyleMethodSeparators`, lines 80-86. */
  function OldStyleMethodSeparators(): seq<Rule> {
    [OldStyleMethodSeparator, OldStyleMethodSeparatorPreprocessorDirectives, OldStyleMethodSeparatorEndPreprocessorDirectives]
  }

  /** Lines 45-46: region markers only when asked for. */
  function RegionRules(opts: Options): seq<Rule> {
    if opts.removeRegions then [RegionStartEnd] else []
  }

  /** `CompressProperties`, lines 88-93. */
  function CompressProperties(): seq<Rule> {
    [MultilinePropertiesGetSet, MultilinePropertiesSetGet]
  }

  /** `CompressParam`, lines 105-111, with the threshold of line 36. */
  function CompressParam(opts: Options): seq<Rule> {
    [EmptyParam(opts.removeParamNameUptoNWords), EmptyTypeParam]
  }

  /** `CompressSummary`, lines 96-103, with the threshold of line 37. */
  function CompressSummary(opts: Options): seq<Rule> {
    [SingleLineSummary, SingleLineEmptySummary(opts.removeSummaryUptoNWords), MultilineEmptySummary]
  }

  /** `RemoveTags`, lines 62-78: one rule per configured tag, in order. */
  function RemoveTags(tags: seq<string>): (r: seq<Rule>)
    ensures |r| == |tags| && forall k :: 0 <= k < |tags| ==> r[k] == RemoveTag(tags[k])
  {
    seq(|tags|, k requires 0 <= k < |tags| => RemoveTag(tags[k]))
  }

  /** `CompressCurlyBracketNewlines`, lines 114-120. */
  function CompressCurlyBracketNewlines(): seq<Rule> {
    [EmptyNewlineAfterCurlyStart, EmptyLinesBeforeCurlyEnd]
  }

  /** The rules of `Compress` in the order of lines 43-57. */
  function Pipeline(opts: Options): seq<Rule> {
    OldStyleMethodSeparators() + AfterSeparators(opts)
  }

  /** Everything `Compress` does after the separators, lines 45-57. */
  function AfterSeparators(opts: Options): seq<Rule> {
    RegionRules(opts) + CompressProperties() + [VersionHistory]
      + CompressParam(opts) + [EmptyReturns] + CompressSummary(opts)
      + RemoveTags(opts.removeTags) + CompressCurlyBracketNewlines()
  }

  /** `Compress` as the source writes it: each stage applied to the output of
      the one before, separators first and the brace rules last. */
  lemma CompressInStages(opts: Options, s: string, nl: NewLine)
    ensures var separated := ApplyAll(OldStyleMethodSeparators(), s, nl);
      var regions := ApplyAll(RegionRules(opts), separated, nl);
      var properties := ApplyAll(CompressProperties(), regions, nl);
      var history := Replace(VersionHistory, properties, nl);
      var params := ApplyAll(CompressParam(opts), history, nl);
      var noReturns := Replace(EmptyReturns, params, nl);
      var summaries := ApplyAll(CompressSummary(opts), noReturns, nl);
      var tags := ApplyAll(RemoveTags(opts.removeTags), summaries, nl);
      Compress(opts, s, nl) == ApplyAll(CompressCurlyBracketNewlines(), tags, nl)
  {
    var s1 := ApplyAll(OldStyleMethodSeparators(), s, nl);
    var r1 := RegionRules(opts);
    var r2 := r1 + CompressProperties();
    var r3 := r2 + [VersionHistory];
    var r4 := r3 + CompressParam(opts);
    var r5 := r4 + [EmptyReturns];
    var r6 := r5 + CompressSummary(opts);
    var r7 := r6 + RemoveTags(opts.removeTags);
    ApplyAllAppend(OldStyleMethodSeparators(), AfterSeparators(opts), s, nl);
    ApplyAllAppend(r7, CompressCurlyBracketNewlines(), s1, nl);
    ApplyAllAppend(r6, RemoveTags(opts.removeTags), s1, nl);
    ApplyAllAppend(r5, CompressSummary(opts), s1, nl);
    ApplyAllAppend(r4, [EmptyReturns], s1, nl);
    SingleRule(EmptyReturns, ApplyAll(r4, s1, nl), nl);
    ApplyAllAppend(r3, CompressParam(opts), s1, nl);
    ApplyAllAppend(r2, [VersionHistory], s1, nl);
    SingleRule(VersionHistory, ApplyAll(r2, s1, nl), nl);
    ApplyAllAppend(r1, CompressProperties(), s1, nl);
  }

  /** A list of one rule is that rule's replacement. */
  lemma SingleRule(rule: Rule, s: string, nl: NewLine)
    ensures ApplyAll([rule], s, nl) == Replace(rule, s, nl)
  {
    assert [rule][1..] == [];
  }

  /** The region-marker rule is in the pipeline exactly when the options ask
      for it. */
  lemma RegionsOnlyWhenAsked(opts: Options)
    ensures RegionStartEnd in Pipeline(opts) <==> opts.removeRegions
  {
    assert Pipeline(opts) == OldStyleMethodSeparators() + RegionRules(opts) + (CompressProperties() + [VersionHistory]
      + CompressParam(opts) + [EmptyReturns] + CompressSummary(opts)
      + RemoveTags(opts.removeTags) + CompressCurlyBracketNewlines());
  }

  /** The rule of a tag is in the pipeline exactly when the options name
      that tag. */
  lemma TagsOnlyWhenNamed(opts: Options, t: string)
    ensures RemoveTag(t) in Pipeline(opts) <==> t in opts.removeTags
  {
    var tags := opts.removeTags;
    if t in tags {
      var k :| 0 <= k < |tags| && tags[k] == t;
      assert RemoveTags(tags)[k] == RemoveTag(t);
    }
    if RemoveTag(t) in RemoveTags(tags) {
      var k :| 0 <= k < |tags| && RemoveTags(tags)[k] == RemoveTag(t);
    }
  }

  /** The word thresholds of the two short-body rules are the options' own. */
  lemma ThresholdsFromOptions(opts: Options, n: nat)
    ensures EmptyParam(opts.removeParamNameUptoNWords) in Pipeline(opts)
    ensures SingleLineEmptySummary(opts.removeSummaryUptoNWords) in Pipeline(opts)
    ensures EmptyParam(n) in Pipeline(opts) ==> n == opts.removeParamNameUptoNWords
    ensures SingleLineEmptySummary(n) in Pipeline(opts) ==> n == opts.removeSummaryUptoNWords
  {
  }

  /** `Compress`: the whole pipeline over one file's text. */
  function Compress(opts: Options, s: string, nl: NewLine): string {
    ApplyAll(Pipeline(opts), s, nl)
  }

  /** Running two rule lists one after the other is running their concatenation. */
  lemma {:induction false} ApplyAllAppend(a: seq<Rule>, b: seq<Rule>, s: string, nl: NewLine)
    ensures ApplyAll(a + b, s, nl) == ApplyAll(b, ApplyAll(a, s, nl), nl)
    decreases |a|
  {
    if |a| > 0 {
      assert (a + b)[0] == a[0] && (a + b)[1..] == a[1..] + b;
      ApplyAllAppend(a[1..], b, Replace(a[0], s, nl), nl);
    } else {
      assert a + b == b;
    }
  }

  /** The separator rules run before region markers are deleted (the comment
      on line 43): a separator right after `#region X` is still seen as one. */
  lemma SeparatorsBeforeRegions(opts: Options, x: nat, y: nat)
    requires x < |Pipeline(opts)| && y < |Pipeline(opts)|
    requires Pipeline(opts)[x] in OldStyleMethodSeparators() && Pipeline(opts)[y] == RegionStartEnd
    ensures x < y
  {
    var p := Pipeline(opts);
    var rest := AfterSeparators(opts);
    forall k | 0 <= k < |p|
      ensures p[k] in OldStyleMethodSeparators() <==> k < 3
    {
      if 3 <= k {
        assert p[k] == rest[k - 3];
        assert p[k] in rest;
        NoSeparatorAfterSeparators(opts, p[k]);
      }
    }
  }

  lemma NoSeparatorAfterSeparators(opts: Options, r: Rule)
    requires r in AfterSeparators(opts)
    ensures r !in OldStyleMethodSeparators()
  {
    if r in RemoveTags(opts.removeTags) {
      var k :| 0 <= k < |opts.removeTags| && RemoveTags(opts.removeTags)[k] == r;
    }
  }

  /** Plain text, with no comment, directive or brace, goes through any list
      of rules unchanged. */
  lemma {:induction false} PlainTextThroughRules(rules: seq<Rule>, s: string, nl: NewLine)
    requires IsPlain(s)
    ensures ApplyAll(rules, s, nl) == s
    decreases |rules|
  {
    if |rules| > 0 {
      PlainTextUnchanged(rules[0], s, nl);
      PlainTextThroughRules(rules[1..], s, nl);
    }
  }

  /** `Compress` leaves text with no `/`, `#`, `{` or `}` exactly as it is,
      whatever the options. */
  lemma PlainTextUncompressed(opts: Options, s: string, nl: NewLine)
    requires IsPlain(s)
    ensures Compress(opts, s, nl) == s
  {
    PlainTextThroughRules(Pipeline(opts), s, nl);
  }

  /** Rules other than the property and brace rules leave code as it is. */
  lemma {:induction false} CodeThroughCommentRules(rules: seq<Rule>, s: string, nl: NewLine)
    requires IsCode(s) && forall k :: 0 <= k < |rules| ==> !rules[k].ActsOnCode()
    ensures ApplyAll(rules, s, nl) == s
    decreases |rules|
  {
    if |rules| > 0 {
      CodeUnchanged(rules[0], s, nl);
      CodeThroughCommentRules(rules[1..], s, nl);
    }
  }

  /** No list of rules brings a `/` or a `#` into code. */
  lemma {:induction false} CodeStaysCodeThroughRules(rules: seq<Rule>, s: string, nl: NewLine)
    requires IsCode(s)
    ensures IsCode(ApplyAll(rules, s, nl))
    decreases |rules|
  {
    if |rules| > 0 {
      CodeStaysCode(rules[0], s, nl);
      CodeStaysCodeThroughRules(rules[1..], Replace(rules[0], s, nl), nl);
    }
  }

  /** In code, with no comment, separator or directive, `Compress` does
      exactly what the property rules and then the brace rules do, whatever
      the options: every other rule needs a `/` or a `#`, and neither kind
      of rule puts one in. */
  lemma CodeOnlyPropertiesAndBraces(opts: Options, s: string, nl: NewLine)
    requires IsCode(s)
    ensures Compress(opts, s, nl) == ApplyAll(CompressProperties() + CompressCurlyBracketNewlines(), s, nl)
  {
    var r1 := RegionRules(opts);
    var r2 := r1 + CompressProperties();
    var t := ApplyAll(CompressProperties(), s, nl);
    ApplyAllAppend(OldStyleMethodSeparators(), AfterSeparators(opts), s, nl);
    CodeThroughCommentRules(OldStyleMethodSeparators(), s, nl);
    ApplyAllAppend(r1, CompressProperties(), s, nl);
    CodeThroughCommentRules(r1, s, nl);
    CodeStaysCodeThroughRules(CompressProperties(), s, nl);
    CommentStagesKeepCode(opts, r2, s, t, nl);
    ApplyAllAppend(CompressProperties(), CompressCurlyBracketNewlines(), s, nl);
  }

  /** The stages between the property rules and the brace rules leave code
      as it is. */
  lemma CommentStagesKeepCode(opts: Options, r2: seq<Rule>, s: string, t: string, nl: NewLine)
    requires r2 == RegionRules(opts) + CompressProperties() && ApplyAll(r2, s, nl) == t && IsCode(t)
    ensures ApplyAll(AfterSeparators(opts), s, nl) == ApplyAll(CompressCurlyBracketNewlines(), t, nl)
  {
    var r3 := r2 + [VersionHistory];
    var r4 := r3 + CompressParam(opts);
    var r5 := r4 + [EmptyReturns];
    var r6 := r5 + CompressSummary(opts);
    var r7 := r6 + RemoveTags(opts.removeTags);
    ApplyAllAppend(r7, CompressCurlyBracketNewlines(), s, nl);
    ApplyAllAppend(r6, RemoveTags(opts.removeTags), s, nl);
    ApplyAllAppend(r5, CompressSummary(opts), s, nl);
    CommentStagesAreCommentRules(opts);
    CodeThroughCommentRules(RemoveTags(opts.removeTags), t, nl);
    CodeThroughCommentRules(CompressSummary(opts), t, nl);
    ParamStagesKeepCode(opts, r2, s, t, nl);
  }

  lemma ParamStagesKeepCode(opts: Options, r2: seq<Rule>, s: string, t: string, nl: NewLine)
    requires ApplyAll(r2, s, nl) == t && IsCode(t)
    ensures ApplyAll(r2 + [VersionHistory] + CompressParam(opts) + [EmptyReturns], s, nl) == t
  {
    var r3 := r2 + [VersionHistory];
    var r4 := r3 + CompressParam(opts);
    ApplyAllAppend(r4, [EmptyReturns], s, nl);
    ApplyAllAppend(r3, CompressParam(opts), s, nl);
    ApplyAllAppend(r2, [VersionHistory], s, nl);
    CommentStagesAreCommentRules(opts);
    CodeThroughCommentRules([VersionHistory], t, nl);
    CodeThroughCommentRules(CompressParam(opts), t, nl);
    CodeThroughCommentRules([EmptyReturns], t, nl);
  }

  /** The stages between the property rules and the brace rules hold no
      property or brace rule. */
  lemma CommentStagesAreCommentRules(opts: Options)
    ensures forall k :: 0 <= k < |[VersionHistory]| ==> ![VersionHistory][k].ActsOnCode()
    ensures forall k :: 0 <= k < |CompressParam(opts)| ==> !CompressParam(opts)[k].ActsOnCode()
    ensures forall k :: 0 <= k < |[EmptyReturns]| ==> ![EmptyReturns][k].ActsOnCode()
    ensures forall k :: 0 <= k < |CompressSummary(opts)| ==> !CompressSummary(opts)[k].ActsOnCode()
    ensures forall k :: 0 <= k < |RemoveTags(opts.removeTags)| ==> !RemoveTags(opts.removeTags)[k].ActsOnCode()
  {
  }

  /** The tag rules leave a text in which no configured tag has a block
      unchanged: tags are removed only where the options name them. */
  lemma {:induction false} AbsentTagsKept(tags: seq<string>, s: string, nl: NewLine)
    requires forall t, p: nat :: t in tags && p < |s| ==> MatchAt(RemoveTag(t), s, p, nl).None?
    ensures ApplyAll(RemoveTags(tags), s, nl) == s
    decreases |tags|
  {
    if |tags| > 0 {
      ReplaceWithoutMatch(RemoveTag(tags[0]), s, nl);
      assert RemoveTags(tags)[1..] == RemoveTags(tags[1..]);
      AbsentTagsKept(tags[1..], s, nl);
    }
  }

  /** `RemoveTags` as written (lines 62-78): the rules are built once, from
      the options of the first instance, into a static field shared by every
      instance, and a later instance reuses them whatever its own options. */
  function RemoveTagsAsWritten(cache: Option<seq<string>>, opts: Options, s: string, nl: NewLine): (r: (string, Option<seq<string>>))
    ensures r.1 == Some(if cache.Some? then cache.value else opts.removeTags)
    ensures r.0 == ApplyAll(RemoveTags(r.1.value), s, nl)
  {
    var tags := if cache.None? then opts.removeTags else cache.value;
    (ApplyAll(RemoveTags(tags), s, nl), Some(tags))
  }

  /** Once the static field is filled, the options of the instance that
      calls play no part: every instance gets the same stage, and the field
      keeps its tags. */
  lemma CacheIgnoresOptions(tags: seq<string>, o1: Options, o2: Options, s: string, nl: NewLine)
    ensures RemoveTagsAsWritten(Some(tags), o1, s, nl) == RemoveTagsAsWritten(Some(tags), o2, s, nl)
    ensures RemoveTagsAsWritten(Some(tags), o1, s, nl).1 == Some(tags)
  {
  }

  /** The first call fills the field from its own instance's options, and
      every later call, from any instance, removes that instance's tags. */
  lemma CacheFixedByFirstCall(first: Options, later: Options, s0: string, s: string, nl: NewLine)
    ensures var cache := RemoveTagsAsWritten(None, first, s0, nl).1;
      && cache == Some(first.removeTags)
      && RemoveTagsAsWritten(cache, later, s, nl) == (ApplyAll(RemoveTags(first.removeTags), s, nl), cache)
  {
  }

  /** A second instance configured to remove no tag still removes the tags
      of the first: a text that is one block of the first instance's tag is
      deleted, where the corrected stage, which reads the instance's own
      options, keeps it. */
  lemma StaleTagCache(s: string, t: string, nl: NewLine)
    requires CustomTags.MatchTag(s, 0, t) == Some(Found(|s|, ""))
    ensures var cache := RemoveTagsAsWritten(None, Options(false, [t], 0, 0), s, nl).1;
      && cache == Some([t])
      && RemoveTagsAsWritten(cache, Options(false, [], 0, 0), s, nl).0 == ""
      && ApplyAll(RemoveTags([]), s, nl) == s
      && s != ""
  {
    assert RemoveTags([t]) == [RemoveTag(t)];
    assert ApplyAll([RemoveTag(t)], s, nl) == ApplyAll([], Replace(RemoveTag(t), s, nl), nl);
    WholeTextMatched(RemoveTag(t), s, nl);
    assert RemoveTags([]) == [];
  }

  /** A text that is one match of a rule is replaced by that match's replacement. */
  lemma WholeTextMatched(rule: Rule, s: string, nl: NewLine)
    requires MatchAt(rule, s, 0, nl).Some? && MatchAt(rule, s, 0, nl).value.end == |s|
    ensures Replace(rule, s, nl) == MatchAt(rule, s, 0, nl).value.repl
  {
    var ms := Matches(rule, s, nl);
    assert ReplaceFrom(s, ms, |s|) == "";
  }

  /** The discrepancy on the input `///<a></a>` and a line feed. */
  lemma StaleTagCacheSample(nl: NewLine)
    ensures var s := "///<a></a>\n";
      RemoveTagsAsWritten(Some(["a"]), Options(false, [], 0, 0), s, nl).0 == ""
  {
    CustomTags.SampleBlock();
    StaleTagCache("///<a></a>\n", "a", nl);
  }
}
