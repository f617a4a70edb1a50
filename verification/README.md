# WhiteSpaceWarrior C# compressor, modelled in Dafny

`CSharpCompressors.Compress` shrinks the text of one C# source file by a fixed
chain of regular-expression find-and-replace rules:

- decorative `///////` method separators are collapsed;
- `#region`/`#endregion` lines are dropped when asked for;
- multi-line auto-property bodies are folded onto one line;
- a "Version History" region of comments is deleted;
- empty or short `<param>`, `<typeparam>`, `<returns>` and `<summary>` doc tags are deleted or folded;
- the doc blocks of configured tags are removed;
- blank lines next to braces are deleted.

This project models that chain.

Each pattern is a hand-written matcher over the whole text, in its own module:

- `Separators`, `Regions`, `Properties`, `DocTags`, `Summaries`, `CustomTags` and `Braces`;
- `Words` holds the word-count body shared by the two threshold rules.

Each matcher takes the text `s` and a position `i`. It returns `None`, or the end of the match and its replacement (`Found(end, repl)`). Every matcher has a declarative partner: a ghost predicate that transcribes the regex, its greedy and lazy choices included. A lemma shows the two agree in both directions.

`Replacing` models `Regex.Replace`. The scan goes left to right over a table of the matches at every position. At each position it either replaces the match found there and resumes after it, or copies one character.

`Rules` names the sixteen rules after the fields that hold them and dispatches to the matchers.

`Compressor` holds three things:

- the four options the class reads;
- the rule list in the order `Compress` applies them;
- `Compress` itself, as the rules folded over the text.

`Environment.NewLine`, which three replacements insert, is a parameter (`NewLine = Lf | CrLf`).

## Model

| member | source | states |
|---|---|---|
| Separators.SeparatorLineExactly | WhiteSpaceWarrior/CSharpCompressors.cs:28 | the separator-line matcher accepts exactly indentation, seven or more slashes, trailing blanks and one line terminator |
| Separators.BetweenBlankLinesExactly | WhiteSpaceWarrior/CSharpCompressors.cs:28 | a match ending at `j` with two new-lines as replacement happens exactly when two or more line breaks, a separator line and one or more empty lines (line breaks only, no blanks) span `s[i..j]` and no further line break follows (the `+` is greedy) |
| Separators.MatchBetweenBlankLines | WhiteSpaceWarrior/CSharpCompressors.cs:82 | every match ends inside the text and is replaced by two new-lines |
| Separators.DirectiveBeforeExactly | WhiteSpaceWarrior/CSharpCompressors.cs:29 | the right-to-left evaluation of the lookbehind holds exactly when the text before `i` ends with an `#if X` or `#region X` line (word name, blanks, terminator) |
| Separators.AfterDirectiveExactly | WhiteSpaceWarrior/CSharpCompressors.cs:29 | the rule replaces `s[i..j]` by one new-line exactly when an `#if`/`#region` line precedes `i` and a separator line plus all the empty lines after it span `s[i..j]` |
| Separators.MatchAfterDirective | WhiteSpaceWarrior/CSharpCompressors.cs:83 | every match is replaced by one new-line |
| Separators.BeforeEndDirectiveExactly | WhiteSpaceWarrior/CSharpCompressors.cs:30 | the rule replaces `s[i..j]` by two new-lines exactly when two or more line breaks, a separator line and indentation span it and `#endif` or `#endregion` follows at `j`, which is not consumed |
| Separators.MatchBeforeEndDirective | WhiteSpaceWarrior/CSharpCompressors.cs:84 | every match is replaced by two new-lines |
| Regions.RegionMarkerExactly | WhiteSpaceWarrior/CSharpCompressors.cs:27 | the rule deletes exactly a `#region name` or `#endregion` marker with its indentation, up to and including its line terminator or to the end of the text |
| Regions.MatchRegionMarker | WhiteSpaceWarrior/CSharpCompressors.cs:46 | every match is deleted (empty replacement) |
| Regions.CommentRunExact | WhiteSpaceWarrior/CSharpCompressors.cs:22 | the greedy atomic loop of comment lines stops exactly at the end of a run of comment lines that no further comment line follows |
| Regions.CommentRunSound | WhiteSpaceWarrior/CSharpCompressors.cs:22 | what the loop consumes is a run of comment lines and no comment line follows it |
| Regions.VersionHistoryOpenExactly | WhiteSpaceWarrior/CSharpCompressors.cs:22 | the opening matcher accepts exactly blanks, `#region Version History` in any case and the greedy blanks after it |
| Regions.VersionHistoryCloseExactly | WhiteSpaceWarrior/CSharpCompressors.cs:22 | the closing matcher accepts exactly white space, `#endregion` in any case, blanks and all the line terminators after it |
| Regions.VersionHistoryExactly | WhiteSpaceWarrior/CSharpCompressors.cs:22 | the rule deletes exactly a Version History region: its opening line, comment lines only, its closing line and the line breaks after it |
| Properties.ModifierAt | WhiteSpaceWarrior/CSharpCompressors.cs:25-26 | the optional group captures `protected `, `private ` or nothing, and what it captures is in the text |
| Properties.ModifierAtExact | WhiteSpaceWarrior/CSharpCompressors.cs:25-26 | when a modifier and `set;` follow, the group captures exactly that modifier |
| Properties.SpacedLitExactly | WhiteSpaceWarrior/CSharpCompressors.cs:25-26 | a literal followed by `\s+` is matched exactly with all the white space after it |
| Properties.MatchGetSet | WhiteSpaceWarrior/CSharpCompressors.cs:90 | every match is replaced by ` { get; set; }` carrying one of the three modifiers |
| Properties.GetSetExactly | WhiteSpaceWarrior/CSharpCompressors.cs:25 | the rule folds `s[i..j]` into ` { get; m set; }` exactly when `s[i..j]` is a multi-line `{ get; m set; }` body with modifier `m` |
| Properties.MatchSetGet | WhiteSpaceWarrior/CSharpCompressors.cs:91 | every match is replaced by the same get-then-set one-line form |
| Properties.SetGetExactly | WhiteSpaceWarrior/CSharpCompressors.cs:26 | the rule folds `s[i..j]` into ` { get; m set; }` exactly when `s[i..j]` is a multi-line `{ m set; get; }` body, so the order is normalised |
| Properties.PropertyLineInjective | WhiteSpaceWarrior/CSharpCompressors.cs:90-91 | distinct modifiers give distinct one-line forms: the modifier is carried over, never lost |
| Words.ShortBodyExactly | WhiteSpaceWarrior/CSharpCompressors.cs:36-37 | counting words agrees with the regex body `\s*(\w*\s*){0,N}\.?\s*` on every body that runs to the first character it cannot contain |
| Words.BodyLanguageChars | WhiteSpaceWarrior/CSharpCompressors.cs:36-37 | a short body holds only white space, word characters and full stops |
| Words.RepeatsBounded | WhiteSpaceWarrior/CSharpCompressors.cs:36-37 | `N` repetitions of the group cover white space and word characters making at most `N` words |
| Words.CountedRepeats | WhiteSpaceWarrior/CSharpCompressors.cs:36-37 | white space and words that begin with a word are the group repeated once per word |
| Words.RepeatsMonotone | WhiteSpaceWarrior/CSharpCompressors.cs:36-37 | a body accepted under a threshold is accepted under every larger one |
| Words.SpacedWords | WhiteSpaceWarrior/CSharpCompressors.cs:36-37 | any run of white space and word characters with at most `N` words is a short body |
| Words.WordsSplit | WhiteSpaceWarrior/CSharpCompressors.cs:36-37 | the word counts of two adjacent pieces add up, but for a word that straddles the cut |
| DocTags.IndentedLitExactly | WhiteSpaceWarrior/CSharpCompressors.cs:18-19 | `[ \t]+` then the tag literal is matched exactly |
| DocTags.NameAttrExactly | WhiteSpaceWarrior/CSharpCompressors.cs:18 | the attribute `\s*=\s*"[^"]*">` is matched exactly |
| DocTags.SpacedCloseExactly | WhiteSpaceWarrior/CSharpCompressors.cs:18-19 | white space, the closing tag and the rest of the line with its line feed are matched exactly |
| DocTags.ShortCloseExactly | WhiteSpaceWarrior/CSharpCompressors.cs:36-37 | a short body, the closing tag and the rest of the line are matched exactly |
| DocTags.EmptyTypeParamExactly | WhiteSpaceWarrior/CSharpCompressors.cs:18 | the rule deletes exactly an indented `<typeparam name="...">` line whose body is white space, up to and including its line feed |
| DocTags.EmptyReturnsExactly | WhiteSpaceWarrior/CSharpCompressors.cs:19 | the rule deletes exactly an indented `<returns>` line whose body is white space, up to and including its line feed |
| DocTags.ShortParamExactly | WhiteSpaceWarrior/CSharpCompressors.cs:36 | the rule deletes exactly a `<param name="...">` element whose description is at most `N` words and one optional full stop, up to the end of its closing line |
| Summaries.SummaryOpenExactly | WhiteSpaceWarrior/CSharpCompressors.cs:23-24 | the opening line `[ \t]+/// <summary>[ \t]*\r?\n` is matched exactly |
| Summaries.ContentLineExactly | WhiteSpaceWarrior/CSharpCompressors.cs:23 | the one content line is matched exactly, its comment starting after the greedy blanks and running to the line terminator |
| Summaries.SummaryCloseExactly | WhiteSpaceWarrior/CSharpCompressors.cs:23-24 | the closing line `[ \t]+/// </summary>[^\n]*\n` is matched exactly |
| Summaries.SingleLineSummarySound | WhiteSpaceWarrior/CSharpCompressors.cs:23 | every match is a three-line summary and is replaced (line 98) by `indent/// <summary> comment </summary>` and a new-line, built from its own indentation and comment |
| Summaries.SingleLineSummaryComplete | WhiteSpaceWarrior/CSharpCompressors.cs:23 | every three-line summary is matched and folded that way |
| Summaries.ShortSummaryExactly | WhiteSpaceWarrior/CSharpCompressors.cs:37 | the rule deletes exactly a summary whose text is at most `N` words and one optional full stop, up to the end of its closing line |
| Summaries.InlinedShortSummaryDeleted | WhiteSpaceWarrior/CSharpCompressors.cs:37 | a summary folded onto one line by the rule of line 23, with a comment of white space and at most `N` words, is then deleted whole by the short-summary rule |
| Summaries.BlankDocRunExact | WhiteSpaceWarrior/CSharpCompressors.cs:24 | the loop over blank doc lines stops exactly at the end of a maximal run of them |
| Summaries.EmptySummaryExactly | WhiteSpaceWarrior/CSharpCompressors.cs:24 | the rule deletes exactly a summary whose content lines, however many, are all blank |
| Summaries.LongSummaryUnmatched | WhiteSpaceWarrior/CSharpCompressors.cs:96-103 | at the start of a summary whose content holds two lines of text (blank doc lines may come before or between them), none of the three summary rules matches |
| Summaries.LongSummaryKept | WhiteSpaceWarrior/CSharpCompressors.cs:96-103 | none of the three summary rules matches at any position from the start of such a summary to the end of its second text line, as long as no second `/// <summary>` stands in that stretch |
| CustomTags.CloseAtExactly | WhiteSpaceWarrior/CSharpCompressors.cs:66 | `</t>[ \t]*\r?\n` is matched exactly |
| CustomTags.FirstCloseExactly | WhiteSpaceWarrior/CSharpCompressors.cs:66 | the lazy `.*?` finds exactly the first closing line after the tag, so a later `</t>` is not consumed |
| CustomTags.TagFromTop | WhiteSpaceWarrior/CSharpCompressors.cs:66 | backtracking into the blanks after `<` never finds a tag that does not begin with a blank |
| CustomTags.TagBlockExactly | WhiteSpaceWarrior/CSharpCompressors.cs:66 | the rule for tag `t` deletes exactly a doc block from an opening `/// <t` line to the first closing `</t>` line |
| CustomTags.SampleBlock | WhiteSpaceWarrior/CSharpCompressors.cs:66 | the one-line block `///<a></a>` and its line feed are matched whole by the rule for `a` |
| Braces.BlankLineExact | WhiteSpaceWarrior/CSharpCompressors.cs:20-21 | one blank line `[ \t]*\r?\n` is matched exactly |
| Braces.BlankRunExact | WhiteSpaceWarrior/CSharpCompressors.cs:20-21 | the greedy `([ \t]*\r?\n)*` stops exactly where no further blank line starts |
| Braces.BlankLinesAfterBraceExactly | WhiteSpaceWarrior/CSharpCompressors.cs:20 | the rule keeps the `{` line (line 116) and deletes exactly all the blank lines right after it |
| Braces.BraceLineIsNotBlank | WhiteSpaceWarrior/CSharpCompressors.cs:21 | an indented `}` line is not a blank line, so the greedy run never has to give one back |
| Braces.BlankLinesBeforeBraceExactly | WhiteSpaceWarrior/CSharpCompressors.cs:21 | the rule deletes exactly the blank lines between a line end and an indented `}`, keeping one line feed and the brace with its indentation |
| Replacing.ReplaceCopies | WhiteSpaceWarrior/CSharpCompressors.cs:46 | text in which no match starts is copied unchanged by the replace scan |
| Replacing.ReplaceFirstMatch | WhiteSpaceWarrior/CSharpCompressors.cs:46 | the scan copies the text before the first match, substitutes the match and resumes right after it |
| Replacing.DeletionsKeepSubsequence | WhiteSpaceWarrior/CSharpCompressors.cs:46 | a scan whose replacements are all empty only deletes characters |
| Rules.MatchAt | WhiteSpaceWarrior/CSharpCompressors.cs:18-30 | every rule's match starts at the scan position and ends inside the text, never empty |
| Rules.MatchAtDeletes | WhiteSpaceWarrior/CSharpCompressors.cs:46-108 | the rules replaced by `""` in the source have empty replacements |
| Rules.Matches | WhiteSpaceWarrior/CSharpCompressors.cs:18-30 | the match table holds every rule's match at every position |
| Rules.ReplaceWithoutMatch | WhiteSpaceWarrior/CSharpCompressors.cs:46 | a text in which a rule matches nowhere is left as it is |
| Rules.DeletingRuleKeepsSubsequence | WhiteSpaceWarrior/CSharpCompressors.cs:46-108 | a rule replaced by `""` leaves a subsequence of its input |
| Rules.MatchHasMark | WhiteSpaceWarrior/CSharpCompressors.cs:18-30 | every match of every rule contains a `/`, `#`, `{` or `}` |
| Rules.PlainTextUnchanged | WhiteSpaceWarrior/CSharpCompressors.cs:18-30 | no rule changes a text that has none of those characters |
| Rules.MatchHasCommentMark | WhiteSpaceWarrior/CSharpCompressors.cs:18-30 | every match of a rule other than the two property and two brace rules contains a `/` or a `#` |
| Rules.CodeUnchanged | WhiteSpaceWarrior/CSharpCompressors.cs:18-30 | such a rule leaves text without `/` and `#` as it is |
| Rules.CodeStaysCode | WhiteSpaceWarrior/CSharpCompressors.cs:88-120 | no rule brings a `/` or a `#` into text that has none: the property rules insert ` { get; set; }` forms, the brace rules keep pieces of their input |
| Replacing.ReplaceAvoids | WhiteSpaceWarrior/CSharpCompressors.cs:46 | when neither the text nor any replacement holds a character of a set, neither does the output of `Regex.Replace` |
| Compressor.CompressInStages | WhiteSpaceWarrior/CSharpCompressors.cs:41-60 | the flat rule list gives the same text as the source's stages applied one after another: separators, regions, properties, Version History, parameters, returns, summaries, tags, braces |
| Compressor.RegionsOnlyWhenAsked | WhiteSpaceWarrior/CSharpCompressors.cs:45-46 | the `RegionStartEnd` rule is in the pipeline exactly when `RemoveRegions` is set (the Version History rule of line 22 still deletes its own `#region`/`#endregion` lines either way) |
| Compressor.TagsOnlyWhenNamed | WhiteSpaceWarrior/CSharpCompressors.cs:62-78 | the `RemoveTag` rule of a tag is in the pipeline exactly when the options name that tag (the summary rules of lines 23, 24 and 37 still delete `<summary>` blocks that no option names) |
| Compressor.ThresholdsFromOptions | WhiteSpaceWarrior/CSharpCompressors.cs:36-37 | the two short-body rules run with the thresholds of the options and no other |
| Compressor.SeparatorsBeforeRegions | WhiteSpaceWarrior/CSharpCompressors.cs:43-46 | every separator rule runs before region-marker removal |
| Compressor.ApplyAllAppend | WhiteSpaceWarrior/CSharpCompressors.cs:41-60 | running two rule lists one after the other is running their concatenation |
| Compressor.PlainTextThroughRules | WhiteSpaceWarrior/CSharpCompressors.cs:41-60 | any rule list leaves text without `/`, `#`, `{`, `}` unchanged |
| Compressor.PlainTextUncompressed | WhiteSpaceWarrior/CSharpCompressors.cs:41-60 | `Compress` leaves text without `/`, `#`, `{`, `}` unchanged, whatever the options |
| Compressor.CodeOnlyPropertiesAndBraces | WhiteSpaceWarrior/CSharpCompressors.cs:41-60 | on code with no `/` and no `#`, `Compress` gives exactly what the two property rules and then the two brace rules give, whatever the options: no other rule changes such text |
| Compressor.AbsentTagsKept | WhiteSpaceWarrior/CSharpCompressors.cs:62-78 | the tag stage leaves a text unchanged when no configured tag has a block in it |
| Compressor.CacheFixedByFirstCall | WhiteSpaceWarrior/CSharpCompressors.cs:64-70 | the first call fills the static field of line 13 with its own instance's tags, and every later call, from any instance, removes exactly those tags and leaves the field as it is |
| Compressor.CacheIgnoresOptions | WhiteSpaceWarrior/CSharpCompressors.cs:64-70 | once the field is filled, two instances with any options get the same output and the same field from the tag stage |
| Compressor.StaleTagCache | WhiteSpaceWarrior/CSharpCompressors.cs:64-70 | a second instance configured with no tags still deletes a block of the first instance's tag, which the corrected stage keeps |
| Compressor.StaleTagCacheSample | WhiteSpaceWarrior/CSharpCompressors.cs:64-70 | the concrete input `///<a></a>` and a line feed is deleted to the empty text by such a second instance |

Points where the code does something a reader may not expect:

- The brace rule of line 21 needs only indentation before the `}`. It does not ask that the brace be alone on its line.
- The folded summary keeps its comment's trailing blanks; only the blanks before the comment are dropped.
- The Version History region may hold any `//` comment lines (line 22), not only documentation comments.
- A tag block ends at the first `</t>` that only blanks and a line terminator follow (line 66), whether or not that line is a documentation comment.
- Code without comments or directives is still rewritten. On text with no `/` and no `#`, the two property rules fold multi-line auto-properties and the two brace rules drop blank lines (`Compressor.CodeOnlyPropertiesAndBraces`). No other rule changes such text.
- The Version History rule runs after region markers have been removed (lines 46 and 49). With `RemoveRegions` set, its own `#region` line is therefore gone before it runs.

## Left out

- The .NET regex engine in general. Each pattern is a hand-written matcher whose agreement with the pattern is proved. Atomic groups, the lookbehind of line 29, greedy give-back and lazy search are modelled only as these patterns use them.
- `\w` is ASCII letters, digits and `_`. `\s` is the .NET white-space set written out. `IgnoreCase` (line 22) is ASCII lower-casing. Unicode categories are not modelled.
- A configured tag is treated as a literal. The source splices it into a pattern unescaped, so regex metacharacters in a tag name are not modelled.
- CustomTags.TagBlockExactly: stated only for tags that do not begin with a blank or tab. A tag that does can be found by backtracking into the blanks after `<`, and the plain characterisation does not hold for it.
- Words.ShortBodyExactly: stated for a body that runs to the first character a short body cannot contain. The matchers test exactly that body, so the rules' own characterisations are unaffected.
- Summaries.InlinedShortSummaryDeleted: covers comments made only of white space and word characters. A comment ending in a full stop is also deleted by the source but is not stated here.
- `Environment.NewLine` is a parameter rather than a platform setting.
- The `Options` class beyond the four fields read here, the command line, file enumeration, reading and writing files: all I/O outside this class.
- Negative word thresholds: the thresholds are natural numbers here. With a negative value the text `{0,-1}` in the pattern of lines 36-37 is not a quantifier, since a `-` stands where digits are required, so .NET reads the `{` as a literal character. The constructor then succeeds, and the rule becomes the group `(\w*\s*)` once followed by the literal text `{0,-1}`, which ordinary doc comments never contain. Checking the options is left to the caller of the class.
- Idempotence of `Compress` and monotonicity in the thresholds of the whole pipeline: the code does not promise them. `Words.RepeatsMonotone` states the monotonicity of one body.
- Summaries.LongSummaryKept: stated for the three summary rules, and only up to the second text line. It does not hold for `Compress` as a whole. When `summary` is one of the configured tags, the tag rule of line 66 deletes the block. For example, with options `(true, ["summary"], 2, 2)`, a summary of two text lines followed by `    void F() { }` and a line feed compresses to that last line alone. A text line is one whose comment is not empty and does not begin with `</summary>`.
- The `Trim()` the test helper applies to both sides of each comparison: no property here depends on it.

## Findings

| source | as written | input that shows it | evidently intended | confidence | as-written member | corrected member |
|---|---|---|---|---|---|---|
| WhiteSpaceWarrior/CSharpCompressors.cs:13, 64-70 | the tag rules are kept in a static field and built only when it is empty, from the options of the first instance that compresses anything | a first instance with tags `["a"]` compresses any text; a second instance with no tags then compresses `///<a></a>` and a line feed, and the output is the empty text | each instance removes the tags of its own options, so the second instance returns the text unchanged | not executed; high, the field is `static` and never reset | Compressor.StaleTagCache (with Compressor.CacheFixedByFirstCall and Compressor.StaleTagCacheSample) | Compressor.AbsentTagsKept (with Compressor.RemoveTags, which `Compressor.Compress` uses) |
