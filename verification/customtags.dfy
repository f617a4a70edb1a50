// Removal of configured doc tags (CSharpCompressors.cs lines 62-78): for
// each tag `t` the pattern `[ \t]*///[ \t]*<[ \t]*t.*?</t>[ \t]*\r?\n` of
// line 66 deletes a doc block from the line that opens the tag to the first
// line that closes it. `.` crosses lines (single-line mode) and `.*?` is
// lazy, so the block ends at the first closing tag that ends its line.
module CustomTags {
  import opened Scan

  /** The closing tag `</t>`. */
  function CloseTag(tag: string): string {
    "</" + tag + ">"
  }

  // `s[q..j]` is `</t>[ \t]*\r?\n`.
  ghost predicate IsClose(s: string, q: nat, tag: string, j: nat) {
    exists y: nat :: LitAt(s, q, CloseTag(tag)) && Span(s, q + |tag| + 3, y, Blank) && BreakAt(s, y, j)
  }

  /** Matches `</t>[ \t]*\r?\n` at `q`. */
  function CloseAt(s: string, q: nat, tag: string): (r: Option<nat>)
    requires q <= |s|
    ensures r.Some? ==> q < r.value <= |s|
  {
    if LitAt(s, q, CloseTag(tag)) then LineBreakAt(s, SkipWhile(s, q + |tag| + 3, Blank)) else None
  }

  lemma CloseAtExactly(s: string, q: nat, tag: string, j: nat)
    requires q <= |s|
    ensures CloseAt(s, q, tag) == Some(j) <==> IsClose(s, q, tag, j)
  {
    if CloseAt(s, q, tag) == Some(j) {
      assert Span(s, q + |tag| + 3, SkipWhile(s, q + |tag| + 3, Blank), Blank);
    }
    if IsClose(s, q, tag, j) {
      var y: nat :| LitAt(s, q, CloseTag(tag)) && Span(s, q + |tag| + 3, y, Blank) && BreakAt(s, y, j);
      SkipWhileExact(s, q + |tag| + 3, y, Blank);
    }
  }

  // The lazy `.*?</t>[ \t]*\r?\n` from `p`: `s[q..j]` is the first closing
  // line at or after `p`.
  ghost predicate IsFirstClose(s: string, p: nat, tag: string, q: nat, j: nat) {
    p <= q && IsClose(s, q, tag, j) && forall q': nat, j': nat :: p <= q' < q ==> !IsClose(s, q', tag, j')
  }

  /** Searches for the first closing line at or after `p`. */
  function FirstClose(s: string, p: nat, tag: string): (r: Option<(nat, nat)>)
    requires p <= |s|
    ensures r.Some? ==> p <= r.value.0 < r.value.1 <= |s|
    decreases |s| - p
  {
    match CloseAt(s, p, tag)
    case Some(j) => Some((p, j))
    case None => if p < |s| then FirstClose(s, p + 1, tag) else None
  }

  /** The search finds exactly the first closing line. */
  lemma {:induction false} FirstCloseExactly(s: string, p: nat, tag: string, q: nat, j: nat)
    requires p <= |s|
    ensures FirstClose(s, p, tag) == Some((q, j)) <==> IsFirstClose(s, p, tag, q, j)
    decreases |s| - p
  {
    CloseAtExactly(s, p, tag, j);
    if CloseAt(s, p, tag).Some? {
      var j0 := CloseAt(s, p, tag).value;
      CloseAtExactly(s, p, tag, j0);
      if IsFirstClose(s, p, tag, q, j) {
        CloseAtExactly(s, p, tag, j);
        FirstCloseMinimal(s, p, tag, q, j, p, j0);
      }
    } else if p < |s| {
      FirstCloseExactly(s, p + 1, tag, q, j);
      NoCloseAt(s, p, tag);
      if IsFirstClose(s, p + 1, tag, q, j) {
        FirstCloseStep(s, p, tag, q, j);
      }
      if IsFirstClose(s, p, tag, q, j) {
        CloseAtExactly(s, q, tag, j);
        assert q != p;
      }
    } else {
      if IsFirstClose(s, p, tag, q, j) {
        CloseAtExactly(s, q, tag, j);
      }
    }
  }

  lemma FirstCloseMinimal(s: string, p: nat, tag: string, q: nat, j: nat, q': nat, j': nat)
    requires IsFirstClose(s, p, tag, q, j) && p <= q' && IsClose(s, q', tag, j')
    ensures q <= q'
  {
  }

  lemma NoCloseAt(s: string, p: nat, tag: string)
    requires p <= |s| && CloseAt(s, p, tag).None?
    ensures forall j: nat :: !IsClose(s, p, tag, j)
  {
    forall j: nat
      ensures !IsClose(s, p, tag, j)
    {
      CloseAtExactly(s, p, tag, j);
    }
  }

  lemma FirstCloseStep(s: string, p: nat, tag: string, q: nat, j: nat)
    requires IsFirstClose(s, p + 1, tag, q, j) && forall j': nat :: !IsClose(s, p, tag, j')
    ensures IsFirstClose(s, p, tag, q, j)
  {
  }

  // The opening of a doc block: `[ \t]*///[ \t]*<[ \t]*`, giving the position
  // after `<` and the end of the blanks after it.
  function TagOpen(s: string, i: nat): (r: Option<(nat, nat)>)
    requires i <= |s|
    ensures r.Some? ==> i < r.value.0 <= r.value.1 <= |s| && Span(s, r.value.0, r.value.1, Blank)
  {
    var a := SkipWhile(s, i, Blank);
    if !LitAt(s, a, "///") then None
    else
      var b := SkipWhile(s, a + 3, Blank);
      if LitAt(s, b, "<") then Some((b + 1, SkipWhile(s, b + 1, Blank))) else None
  }

  /** The tag and the lazy search for its close, tried where the blanks after
      `<` end and then, as the engine backtracks, one blank earlier each time. */
  function TagFrom(s: string, lo: nat, c: nat, tag: string): (r: Option<nat>)
    requires lo <= c <= |s|
    ensures r.Some? ==> lo < r.value <= |s|
    decreases c
  {
    var found := if LitAt(s, c, tag) then FirstClose(s, c + |tag|, tag) else None;
    match found
    case Some((_, j)) => Some(j)
    case None => if lo < c then TagFrom(s, lo, c - 1, tag) else None
  }

  /** The rule of line 66 for the tag `tag`, replaced by nothing (line 74). */
  function MatchTag(s: string, i: nat, tag: string): (r: Option<Found>)
    requires i <= |s|
    ensures r.Some? ==> i < r.value.end <= |s| && r.value.repl == ""
  {
    match TagOpen(s, i)
    case None => None
    case Some((lo, c)) =>
      match TagFrom(s, lo, c, tag)
      case None => None
      case Some(j) => Some(Found(j, ""))
  }

  // `s[i..j]` is a doc block of the tag: its opening `[ \t]*///[ \t]*<[ \t]*t`
  // and everything up to the first closing line after it.
  ghost predicate IsTagBlockAt(s: string, i: nat, tag: string, a: nat, b: nat, c: nat, q: nat, j: nat) {
    && Span(s, i, a, Blank) && LitAt(s, a, "///") && Span(s, a + 3, b, Blank) && LitAt(s, b, "<")
    && Span(s, b + 1, c, Blank) && LitAt(s, c, tag) && IsFirstClose(s, c + |tag|, tag, q, j)
  }

  ghost predicate IsTagBlock(s: string, i: nat, tag: string, j: nat) {
    exists a: nat, b: nat, c: nat, q: nat :: IsTagBlockAt(s, i, tag, a, b, c, q, j)
  }

  /** For a tag that does not begin with a blank, the rule deletes exactly a
      doc block from its opening to the first closing line. */
  lemma TagBlockExactly(s: string, i: nat, tag: string, j: nat)
    requires i <= |s| && |tag| > 0 && !IsBlank(tag[0])
    ensures MatchTag(s, i, tag) == Some(Found(j, "")) <==> IsTagBlock(s, i, tag, j)
  {
    if MatchTag(s, i, tag) == Some(Found(j, "")) {
      TagBlockSound(s, i, tag);
    }
    if IsTagBlock(s, i, tag, j) {
      var a: nat, b: nat, c: nat, q: nat :| IsTagBlockAt(s, i, tag, a, b, c, q, j);
      TagBlockComplete(s, i, tag, a, b, c, q, j);
    }
  }

  lemma TagBlockSound(s: string, i: nat, tag: string)
    requires i <= |s| && |tag| > 0 && !IsBlank(tag[0]) && MatchTag(s, i, tag).Some?
    ensures IsTagBlock(s, i, tag, MatchTag(s, i, tag).value.end)
  {
    var a, b := TagOpenParts(s, i);
    var c := TagOpen(s, i).value.1;
    TagFromTop(s, b + 1, c, tag);
    var (q, j) := FirstClose(s, c + |tag|, tag).value;
    FirstCloseExactly(s, c + |tag|, tag, q, j);
    TagBlockIntro(s, i, tag, a, b, c, q, j);
  }

  lemma TagOpenParts(s: string, i: nat) returns (a: nat, b: nat)
    requires i <= |s| && TagOpen(s, i).Some?
    ensures Span(s, i, a, Blank) && LitAt(s, a, "///") && Span(s, a + 3, b, Blank) && LitAt(s, b, "<")
    ensures TagOpen(s, i).value.0 == b + 1
  {
    a := SkipWhile(s, i, Blank);
    b := SkipWhile(s, a + 3, Blank);
  }

  lemma TagBlockIntro(s: string, i: nat, tag: string, a: nat, b: nat, c: nat, q: nat, j: nat)
    requires Span(s, i, a, Blank) && LitAt(s, a, "///") && Span(s, a + 3, b, Blank) && LitAt(s, b, "<")
    requires Span(s, b + 1, c, Blank) && LitAt(s, c, tag) && IsFirstClose(s, c + |tag|, tag, q, j)
    ensures IsTagBlock(s, i, tag, j)
  {
    assert IsTagBlockAt(s, i, tag, a, b, c, q, j);
  }

  lemma TagBlockComplete(s: string, i: nat, tag: string, a: nat, b: nat, c: nat, q: nat, j: nat)
    requires i <= |s| && |tag| > 0 && !IsBlank(tag[0])
    requires Span(s, i, a, Blank) && LitAt(s, a, "///") && Span(s, a + 3, b, Blank) && LitAt(s, b, "<")
    requires Span(s, b + 1, c, Blank) && LitAt(s, c, tag) && IsFirstClose(s, c + |tag|, tag, q, j)
    ensures MatchTag(s, i, tag) == Some(Found(j, ""))
  {
    LitAtHead(s, a, "///");
    LitAtHead(s, b, "<");
    LitAtHead(s, c, tag);
    SkipWhileExact(s, i, a, Blank);
    SkipWhileExact(s, a + 3, b, Blank);
    SkipWhileExact(s, b + 1, c, Blank);
    assert TagOpen(s, i) == Some((b + 1, c));
    FirstCloseExactly(s, c + |tag|, tag, q, j);
  }

  /** Only the tag right after the blanks can be found: backtracking never
      succeeds for a tag that does not begin with a blank. */
  lemma TagFromTop(s: string, lo: nat, c: nat, tag: string)
    requires lo <= c <= |s| && Span(s, lo, c, Blank) && |tag| > 0 && !IsBlank(tag[0])
    ensures TagFrom(s, lo, c, tag).Some? ==>
      && LitAt(s, c, tag) && FirstClose(s, c + |tag|, tag).Some?
      && TagFrom(s, lo, c, tag).value == FirstClose(s, c + |tag|, tag).value.1
  {
    if lo < c {
      TagFromBlank(s, lo, c - 1, tag);
    }
  }

  /** Among the blanks after `<` a tag that does not begin with a blank is
      never found, so backtracking into them finds nothing. */
  lemma {:induction false} TagFromBlank(s: string, lo: nat, c: nat, tag: string)
    requires lo <= c < |s| && Span(s, lo, c + 1, Blank) && |tag| > 0 && !IsBlank(tag[0])
    ensures TagFrom(s, lo, c, tag).None?
    decreases c
  {
    assert In(s[c], Blank);
    assert !LitAt(s, c, tag) by {
      LitAtExcludesHead(s, c, tag);
    }
    if lo < c {
      TagFromBlank(s, lo, c - 1, tag);
    }
  }

  lemma LitAtExcludesHead(s: string, c: nat, tag: string)
    requires c < |s| && IsBlank(s[c]) && |tag| > 0 && !IsBlank(tag[0])
    ensures !LitAt(s, c, tag)
  {
    if LitAt(s, c, tag) {
      LitAtHead(s, c, tag);
    }
  }

  /** A one-line block, `///<a></a>`, is deleted whole by the rule for `a`. */
  lemma SampleBlock()
    ensures MatchTag("///<a></a>\n", 0, "a") == Some(Found(11, ""))
  {
    var s := "///<a></a>\n";
    assert TagOpen(s, 0) == Some((4, 4));
    assert s[6] == '<' && s[7] == '/' && s[8] == 'a' && s[9] == '>';
    assert LitAt(s, 6, CloseTag("a"));
    assert CloseAt(s, 5, "a") == None;
    assert CloseAt(s, 6, "a") == Some(11);
    assert FirstClose(s, 5, "a") == Some((6, 11));
  }
}
