/**
 * `#region` handling: the marker rule that strips `#region`/`#endregion`
 * lines when regions are to be removed (CSharpCompressors.cs line 27, applied
 * at lines 45-46), and the rule that deletes a "Version History" region made
 * of comment lines (line 22, applied at line 49).
 */
module Regions {
  import opened Scan

  // `s[i..j]` is in `[ \t]*(#region([ \t]*\w*)+|#endregion[ \t]*)(\r?\n|\Z)`:
  // a region marker with its name, or an end marker, up to the end of the
  // line or of the text.
  ghost predicate IsRegionMarker(s: string, i: nat, j: nat) {
    exists a: nat, c: nat ::
      && Span(s, i, a, Blank)
      && ((LitAt(s, a, "#region") && Span(s, a + 7, c, NameChar))
          || (LitAt(s, a, "#endregion") && Span(s, a + 10, c, Blank)))
      && (BreakAt(s, c, j) || c == j == |s|)
  }

  /** The rule of line 27, replaced by nothing (line 46). */
  function MatchRegionMarker(s: string, i: nat): (r: Option<Found>)
    requires i <= |s|
    ensures r.Some? ==> i < r.value.end <= |s| && r.value.repl == ""
  {
    var a := SkipWhile(s, i, Blank);
    var c :=
      if LitAt(s, a, "#region") then Some(SkipWhile(s, a + 7, NameChar))
      else if LitAt(s, a, "#endregion") then Some(SkipWhile(s, a + 10, Blank))
      else None;
    match c
    case None => None
    case Some(c) =>
      match LineBreakAt(s, c)
      case Some(j) => Some(Found(j, ""))
      case None => if c == |s| then Some(Found(c, "")) else None
  }

  /** The rule removes exactly the region marker lines. */
  lemma RegionMarkerExactly(s: string, i: nat, j: nat)
    requires i <= |s|
    ensures MatchRegionMarker(s, i) == Some(Found(j, "")) <==> IsRegionMarker(s, i, j)
  {
    var a := SkipWhile(s, i, Blank);
    if MatchRegionMarker(s, i) == Some(Found(j, "")) {
      if LitAt(s, a, "#region") {
        RegionMarkerIntro(s, i, a, SkipWhile(s, a + 7, NameChar), j);
      } else {
        RegionMarkerIntro(s, i, a, SkipWhile(s, a + 10, Blank), j);
      }
    }
    if IsRegionMarker(s, i, j) {
      var a': nat, c: nat :|
        && Span(s, i, a', Blank)
        && ((LitAt(s, a', "#region") && Span(s, a' + 7, c, NameChar))
            || (LitAt(s, a', "#endregion") && Span(s, a' + 10, c, Blank)))
        && (BreakAt(s, c, j) || c == j == |s|);
      if LitAt(s, a', "#region") && Span(s, a' + 7, c, NameChar) {
        RegionStartComplete(s, i, a', c, j);
      } else {
        RegionEndComplete(s, i, a', c, j);
      }
    }
  }

  lemma RegionStartComplete(s: string, i: nat, a: nat, c: nat, j: nat)
    requires i <= |s| && Span(s, i, a, Blank) && LitAt(s, a, "#region") && Span(s, a + 7, c, NameChar)
    requires BreakAt(s, c, j) || c == j == |s|
    ensures MatchRegionMarker(s, i) == Some(Found(j, ""))
  {
    LitAtHead(s, a, "#region");
    SkipWhileExact(s, i, a, Blank);
    SkipWhileExact(s, a + 7, c, NameChar);
  }

  lemma RegionEndComplete(s: string, i: nat, a: nat, c: nat, j: nat)
    requires i <= |s| && Span(s, i, a, Blank) && LitAt(s, a, "#endregion") && Span(s, a + 10, c, Blank)
    requires BreakAt(s, c, j) || c == j == |s|
    ensures MatchRegionMarker(s, i) == Some(Found(j, ""))
  {
    LitAtHead(s, a, "#endregion");
    SkipWhileExact(s, i, a, Blank);
    LitAtExcludes(s, a, "#endregion", "#region", 1);
    SkipWhileExact(s, a + 10, c, Blank);
  }

  lemma RegionMarkerIntro(s: string, i: nat, a: nat, c: nat, j: nat)
    requires Span(s, i, a, Blank)
    requires (LitAt(s, a, "#region") && Span(s, a + 7, c, NameChar))
          || (LitAt(s, a, "#endregion") && Span(s, a + 10, c, Blank))
    requires BreakAt(s, c, j) || c == j == |s|
    ensures IsRegionMarker(s, i, j)
  {
  }

  // One iteration of `((?>\s*//[^\n]*))*`: white space, `//` and the rest
  // of the line, without its line feed.
  ghost predicate IsCommentLine(s: string, p: nat, r: nat) {
    exists q: nat :: Span(s, p, q, Space) && LitAt(s, q, "//") && Span(s, q + 2, r, NotLineFeed)
      && (r == |s| || s[r] == '\n')
  }

  // `s[p..e]` is a sequence of comment lines.
  ghost predicate CommentLines(s: string, p: nat, e: nat)
    decreases e - p
  {
    p == e || exists r: nat :: p < r <= e && IsCommentLine(s, p, r) && CommentLines(s, r, e)
  }

  // Where the greedy atomic loop `((?>\s*//[^\n]*))*` stops.
  function CommentRun(s: string, p: nat): (e: nat)
    requires p <= |s|
    ensures p <= e <= |s|
    decreases |s| - p
  {
    var q := SkipWhile(s, p, Space);
    if LitAt(s, q, "//") then CommentRun(s, SkipWhile(s, q + 2, NotLineFeed)) else p
  }

  /** The loop consumes comment lines, and stops where no comment line follows. */
  lemma {:induction false} CommentRunSound(s: string, p: nat)
    requires p <= |s|
    ensures CommentLines(s, p, CommentRun(s, p))
    ensures !LitAt(s, SkipWhile(s, CommentRun(s, p), Space), "//")
    decreases |s| - p
  {
    var q := SkipWhile(s, p, Space);
    if LitAt(s, q, "//") {
      var r := SkipWhile(s, q + 2, NotLineFeed);
      assert CommentRun(s, p) == CommentRun(s, r);
      CommentRunSound(s, r);
      CommentLineIntro(s, p, q, r);
      CommentLinesCons(s, p, r, CommentRun(s, r));
    } else {
      assert CommentRun(s, p) == p;
    }
  }

  lemma CommentLineIntro(s: string, p: nat, q: nat, r: nat)
    requires Span(s, p, q, Space) && LitAt(s, q, "//") && Span(s, q + 2, r, NotLineFeed)
    requires r == |s| || s[r] == '\n'
    ensures IsCommentLine(s, p, r) && p < r
  {
  }

  lemma CommentLinesCons(s: string, p: nat, r: nat, e: nat)
    requires p < r <= e && IsCommentLine(s, p, r) && CommentLines(s, r, e)
    ensures CommentLines(s, p, e)
  {
  }

  /** Comment lines not followed by another comment line are exactly what the loop consumes. */
  lemma {:induction false} CommentRunExact(s: string, p: nat, e: nat)
    requires p <= e <= |s| && CommentLines(s, p, e)
    requires !LitAt(s, SkipWhile(s, e, Space), "//")
    ensures CommentRun(s, p) == e
    decreases e - p
  {
    if p < e {
      var r: nat :| p < r <= e && IsCommentLine(s, p, r) && CommentLines(s, r, e);
      CommentLineExact(s, p, r);
      CommentRunExact(s, r, e);
    } else {
      assert CommentRun(s, p) == p;
    }
  }

  /** One comment line is exactly what one iteration of the loop consumes. */
  lemma CommentLineExact(s: string, p: nat, r: nat)
    requires p <= |s| && IsCommentLine(s, p, r)
    ensures r <= |s| && CommentRun(s, p) == CommentRun(s, r)
  {
    var q: nat :| Span(s, p, q, Space) && LitAt(s, q, "//") && Span(s, q + 2, r, NotLineFeed)
      && (r == |s| || s[r] == '\n');
    LitAtHead(s, q, "//");
    SkipWhileExact(s, p, q, Space);
    assert LitAt(s, SkipWhile(s, p, Space), "//");
    SkipWhileExact(s, q + 2, r, NotLineFeed);
    assert CommentRun(s, p) == CommentRun(s, SkipWhile(s, q + 2, NotLineFeed));
  }

  // `s[i..b]` is `( |\t)*#region Version History( |\t)*` with case ignored
  // and the blanks after the name taken greedily.
  ghost predicate IsVersionHistoryOpen(s: string, i: nat, b: nat) {
    exists a: nat ::
      && Span(s, i, a, Blank) && LitAtIgnoringCase(s, a, "#region version history")
      && Span(s, a + 23, b, Blank) && (b == |s| || !IsBlank(s[b]))
  }

  // `s[e..j]` is `\s*#endregion( |\t)*(\r\n?|\n)+` with case ignored and the
  // line terminators taken greedily.
  ghost predicate IsVersionHistoryClose(s: string, e: nat, j: nat) {
    exists f: nat, g: nat ::
      && Span(s, e, f, Space)
      && LitAtIgnoringCase(s, f, "#endregion") && Span(s, f + 10, g, Blank)
      && g < j && Span(s, g, j, BreakChar) && (j == |s| || !In(s[j], BreakChar))
  }

  // `s[i..j]` is in `( |\t)*#region Version History( |\t)*((?>\s*//[^\n]*))*\s*#endregion( |\t)*(\r\n?|\n)+`
  // with case ignored, the blanks after the region name and the trailing
  // line terminators taken greedily.
  ghost predicate IsVersionHistory(s: string, i: nat, j: nat) {
    exists b: nat, e: nat ::
      IsVersionHistoryOpen(s, i, b) && CommentLines(s, b, e) && IsVersionHistoryClose(s, e, j)
  }

  /** The opening line of the region, up to the end of the blanks after its name. */
  function VersionHistoryOpen(s: string, i: nat): (r: Option<nat>)
    requires i <= |s|
    ensures r.Some? ==> i < r.value <= |s|
  {
    var a := SkipWhile(s, i, Blank);
    if LitAtIgnoringCase(s, a, "#region version history") then Some(SkipWhile(s, a + 23, Blank)) else None
  }

  /** The closing line of the region and the line terminators after it. */
  function VersionHistoryClose(s: string, e: nat): (r: Option<nat>)
    requires e <= |s|
    ensures r.Some? ==> e < r.value <= |s|
  {
    var f := SkipWhile(s, e, Space);
    if !LitAtIgnoringCase(s, f, "#endregion") then None
    else
      var g := SkipWhile(s, f + 10, Blank);
      var j := SkipWhile(s, g, BreakChar);
      if j == g then None else Some(j)
  }

  /** The rule of line 22, replaced by nothing (line 49). */
  function MatchVersionHistory(s: string, i: nat): (r: Option<Found>)
    requires i <= |s|
    ensures r.Some? ==> i < r.value.end <= |s| && r.value.repl == ""
  {
    match VersionHistoryOpen(s, i)
    case None => None
    case Some(b) =>
      match VersionHistoryClose(s, CommentRun(s, b))
      case None => None
      case Some(j) => Some(Found(j, ""))
  }

  lemma VersionHistoryOpenExactly(s: string, i: nat, b: nat)
    requires i <= |s|
    ensures VersionHistoryOpen(s, i) == Some(b) <==> IsVersionHistoryOpen(s, i, b)
  {
    var a := SkipWhile(s, i, Blank);
    if VersionHistoryOpen(s, i) == Some(b) {
      assert Span(s, i, a, Blank) && LitAtIgnoringCase(s, a, "#region version history");
    }
    if IsVersionHistoryOpen(s, i, b) {
      var a': nat :| Span(s, i, a', Blank) && LitAtIgnoringCase(s, a', "#region version history")
        && Span(s, a' + 23, b, Blank) && (b == |s| || !IsBlank(s[b]));
      LitAtIgnoringCaseHead(s, a', "#region version history");
      SkipWhileExact(s, i, a', Blank);
      SkipWhileExact(s, a' + 23, b, Blank);
    }
  }

  lemma VersionHistoryCloseExactly(s: string, e: nat, j: nat)
    requires e <= |s|
    ensures VersionHistoryClose(s, e) == Some(j) <==> IsVersionHistoryClose(s, e, j)
  {
    if VersionHistoryClose(s, e) == Some(j) {
      var f := SkipWhile(s, e, Space);
      VersionHistoryCloseIntro(s, e, f, SkipWhile(s, f + 10, Blank), j);
    }
    if IsVersionHistoryClose(s, e, j) {
      var f: nat, g: nat :|
        && Span(s, e, f, Space)
        && LitAtIgnoringCase(s, f, "#endregion") && Span(s, f + 10, g, Blank)
        && g < j && Span(s, g, j, BreakChar) && (j == |s| || !In(s[j], BreakChar));
      VersionHistoryCloseComplete(s, e, f, g, j);
    }
  }

  lemma VersionHistoryCloseComplete(s: string, e: nat, f: nat, g: nat, j: nat)
    requires Span(s, e, f, Space)
    requires LitAtIgnoringCase(s, f, "#endregion") && Span(s, f + 10, g, Blank)
    requires g < j && Span(s, g, j, BreakChar) && (j == |s| || !In(s[j], BreakChar))
    ensures VersionHistoryClose(s, e) == Some(j)
  {
    LitAtIgnoringCaseHead(s, f, "#endregion");
    SkipWhileExact(s, e, f, Space);
    SkipWhileExact(s, f + 10, g, Blank);
    SkipWhileExact(s, g, j, BreakChar);
  }

  lemma VersionHistoryCloseIntro(s: string, e: nat, f: nat, g: nat, j: nat)
    requires Span(s, e, f, Space)
    requires LitAtIgnoringCase(s, f, "#endregion") && Span(s, f + 10, g, Blank)
    requires g < j && Span(s, g, j, BreakChar) && (j == |s| || !In(s[j], BreakChar))
    ensures IsVersionHistoryClose(s, e, j)
  {
  }

  /** The rule removes exactly a version-history region with the line breaks after it. */
  lemma VersionHistoryExactly(s: string, i: nat, j: nat)
    requires i <= |s|
    ensures MatchVersionHistory(s, i) == Some(Found(j, "")) <==> IsVersionHistory(s, i, j)
  {
    if MatchVersionHistory(s, i) == Some(Found(j, "")) {
      var b := VersionHistoryOpen(s, i).value;
      var e := CommentRun(s, b);
      VersionHistoryOpenExactly(s, i, b);
      CommentRunSound(s, b);
      VersionHistoryCloseExactly(s, e, j);
      VersionHistoryIntro(s, i, b, e, j);
    }
    if IsVersionHistory(s, i, j) {
      var b: nat, e: nat :|
        IsVersionHistoryOpen(s, i, b) && CommentLines(s, b, e) && IsVersionHistoryClose(s, e, j);
      VersionHistoryComplete(s, i, b, e, j);
    }
  }

  lemma VersionHistoryIntro(s: string, i: nat, b: nat, e: nat, j: nat)
    requires IsVersionHistoryOpen(s, i, b) && CommentLines(s, b, e) && IsVersionHistoryClose(s, e, j)
    ensures IsVersionHistory(s, i, j)
  {
  }

  lemma VersionHistoryComplete(s: string, i: nat, b: nat, e: nat, j: nat)
    requires i <= |s| && IsVersionHistoryOpen(s, i, b) && CommentLines(s, b, e) && IsVersionHistoryClose(s, e, j)
    ensures MatchVersionHistory(s, i) == Some(Found(j, ""))
  {
    VersionHistoryOpenExactly(s, i, b);
    assert b <= e <= |s| by {
      VersionHistoryCloseBounds(s, e, j);
      CommentLinesBounds(s, b, e);
    }
    CloseAfterComments(s, b, e, j);
    VersionHistoryCloseExactly(s, e, j);
  }

  lemma CommentLinesBounds(s: string, p: nat, e: nat)
    requires CommentLines(s, p, e)
    ensures p <= e
    decreases e - p
  {
    if p != e {
      var r: nat :| p < r <= e && IsCommentLine(s, p, r) && CommentLines(s, r, e);
    }
  }

  lemma VersionHistoryCloseBounds(s: string, e: nat, j: nat)
    requires IsVersionHistoryClose(s, e, j)
    ensures e < j <= |s|
  {
  }

  /** The closing line after the comment lines is where the loop stops. */
  lemma CloseAfterComments(s: string, b: nat, e: nat, j: nat)
    requires b <= e <= |s| && CommentLines(s, b, e) && IsVersionHistoryClose(s, e, j)
    ensures CommentRun(s, b) == e
  {
    var f: nat, g: nat :|
      && Span(s, e, f, Space)
      && LitAtIgnoringCase(s, f, "#endregion") && Span(s, f + 10, g, Blank)
      && g < j && Span(s, g, j, BreakChar) && (j == |s| || !In(s[j], BreakChar));
    LitAtIgnoringCaseHead(s, f, "#endregion");
    SkipWhileExact(s, e, f, Space);
    assert !LitAt(s, f, "//") by {
      if LitAt(s, f, "//") {
        LitAtHead(s, f, "//");
      }
    }
    CommentRunExact(s, b, e);
  }
}
