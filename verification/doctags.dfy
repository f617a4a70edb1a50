/**
 * The rules that delete doc-comment lines saying nothing: an empty
 * `<typeparam>` (CSharpCompressors.cs line 18), an empty `<returns>` (line
 * 19) and a `<param>` whose description is at most `N` words (line 36), all
 * applied by `CompressParam` (lines 105-111) and `Compress` (line 52). Each
 * deletes the whole line, indentation and line feed included.
 */
module DocTags {
  import opened Scan
  import opened Words

  // `s[i..p]` is indentation `[ \t]+` followed by the literal `w`.
  ghost predicate IsIndented(s: string, i: nat, w: string, p: nat) {
    exists a: nat :: i < a && Span(s, i, a, Blank) && LitAt(s, a, w) && p == a + |w|
  }

  /** Matches `[ \t]+` and then the literal `w` at `i`. */
  function IndentedLit(s: string, i: nat, w: string): (r: Option<nat>)
    requires i <= |s|
    ensures r.Some? ==> i < r.value <= |s|
  {
    var a := SkipWhile(s, i, Blank);
    if i < a && LitAt(s, a, w) then Some(a + |w|) else None
  }

  lemma IndentedLitExactly(s: string, i: nat, w: string, p: nat)
    requires i <= |s| && |w| > 0 && !IsBlank(w[0])
    ensures IndentedLit(s, i, w) == Some(p) <==> IsIndented(s, i, w, p)
  {
    if IsIndented(s, i, w, p) {
      var a: nat :| i < a && Span(s, i, a, Blank) && LitAt(s, a, w) && p == a + |w|;
      LitAtHead(s, a, w);
      SkipWhileExact(s, i, a, Blank);
    }
  }

  // `s[p..q]` is the attribute value `\s*=\s*"[^"]*">`.
  ghost predicate IsNameAttr(s: string, p: nat, q: nat) {
    exists x: nat, y: nat, z: nat ::
      && Span(s, p, x, Space) && LitAt(s, x, "=") && Span(s, x + 1, y, Space) && LitAt(s, y, "\"")
      && Span(s, y + 1, z, NotQuote) && LitAt(s, z, "\">") && q == z + 2
  }

  /** Matches `\s*=\s*"[^"]*">` at `p`. */
  function NameAttr(s: string, p: nat): (r: Option<nat>)
    requires p <= |s|
    ensures r.Some? ==> p < r.value <= |s|
  {
    var x := SkipWhile(s, p, Space);
    if !LitAt(s, x, "=") then None
    else
      var y := SkipWhile(s, x + 1, Space);
      if !LitAt(s, y, "\"") then None
      else
        var z := SkipWhile(s, y + 1, NotQuote);
        if LitAt(s, z, "\">") then Some(z + 2) else None
  }

  lemma NameAttrExactly(s: string, p: nat, q: nat)
    requires p <= |s|
    ensures NameAttr(s, p) == Some(q) <==> IsNameAttr(s, p, q)
  {
    if NameAttr(s, p) == Some(q) {
      var x := SkipWhile(s, p, Space);
      var y := SkipWhile(s, x + 1, Space);
      NameAttrIntro(s, p, x, y, SkipWhile(s, y + 1, NotQuote), q);
    }
    if IsNameAttr(s, p, q) {
      var x: nat, y: nat, z: nat :|
        && Span(s, p, x, Space) && LitAt(s, x, "=") && Span(s, x + 1, y, Space) && LitAt(s, y, "\"")
        && Span(s, y + 1, z, NotQuote) && LitAt(s, z, "\">") && q == z + 2;
      NameAttrComplete(s, p, x, y, z, q);
    }
  }

  lemma NameAttrIntro(s: string, p: nat, x: nat, y: nat, z: nat, q: nat)
    requires Span(s, p, x, Space) && LitAt(s, x, "=") && Span(s, x + 1, y, Space) && LitAt(s, y, "\"")
    requires Span(s, y + 1, z, NotQuote) && LitAt(s, z, "\">") && q == z + 2
    ensures IsNameAttr(s, p, q)
  {
  }

  lemma NameAttrComplete(s: string, p: nat, x: nat, y: nat, z: nat, q: nat)
    requires Span(s, p, x, Space) && LitAt(s, x, "=") && Span(s, x + 1, y, Space) && LitAt(s, y, "\"")
    requires Span(s, y + 1, z, NotQuote) && LitAt(s, z, "\">") && q == z + 2
    ensures NameAttr(s, p) == Some(q)
  {
    LitAtHead(s, x, "=");
    LitAtHead(s, y, "\"");
    LitAtHead(s, z, "\">");
    SkipWhileExact(s, p, x, Space);
    SkipWhileExact(s, x + 1, y, Space);
    SkipWhileExact(s, y + 1, z, NotQuote);
  }

  // `s[q..j]` is `\s*` and the closing tag `w`, then the rest of the line
  // with its line feed (`[^\n]*\n`).
  ghost predicate IsSpacedClose(s: string, q: nat, w: string, j: nat) {
    exists x: nat :: Span(s, q, x, Space) && LitAt(s, x, w) && LineRest(s, x + |w|, j)
  }

  /** Matches `\s*`, the closing tag `w` and `[^\n]*\n` at `q`. */
  function SpacedClose(s: string, q: nat, w: string): (r: Option<nat>)
    requires q <= |s|
    ensures r.Some? ==> q < r.value <= |s|
  {
    var x := SkipWhile(s, q, Space);
    if LitAt(s, x, w) then RestOfLine(s, x + |w|) else None
  }

  lemma SpacedCloseExactly(s: string, q: nat, w: string, j: nat)
    requires q <= |s| && |w| > 0 && w[0] == '<'
    ensures SpacedClose(s, q, w) == Some(j) <==> IsSpacedClose(s, q, w, j)
  {
    if SpacedClose(s, q, w) == Some(j) {
      assert LitAt(s, SkipWhile(s, q, Space), w);
    }
    if IsSpacedClose(s, q, w, j) {
      var x: nat :| Span(s, q, x, Space) && LitAt(s, x, w) && LineRest(s, x + |w|, j);
      LitAtHead(s, x, w);
      SkipWhileExact(s, q, x, Space);
      RestOfLineExact(s, x + |w|, j);
    }
  }

  // `s[e..j]` is a short body `\s*(\w*\s*){0,n}\.?\s*`, the closing tag `w`
  // and the rest of the line with its line feed.
  ghost predicate IsShortClose(s: string, e: nat, n: nat, w: string, j: nat) {
    exists f: nat :: InBodyLanguage(s, e, f, n) && LitAt(s, f, w) && LineRest(s, f + |w|, j)
  }

  /** Matches a short body, the closing tag `w` and `[^\n]*\n` at `e`. */
  function ShortClose(s: string, e: nat, n: nat, w: string): (r: Option<nat>)
    requires e <= |s|
    ensures r.Some? ==> e < r.value <= |s|
  {
    var f := SkipWhile(s, e, BodyChar);
    if ShortBody(s, e, f, n) && LitAt(s, f, w) then RestOfLine(s, f + |w|) else None
  }

  lemma ShortCloseExactly(s: string, e: nat, n: nat, w: string, j: nat)
    requires e <= |s| && |w| > 0 && w[0] == '<'
    ensures ShortClose(s, e, n, w) == Some(j) <==> IsShortClose(s, e, n, w, j)
  {
    if ShortClose(s, e, n, w) == Some(j) {
      var f := SkipWhile(s, e, BodyChar);
      ShortBodyExactly(s, e, f, n);
      ShortCloseIntro(s, e, n, w, f, j);
    }
    if IsShortClose(s, e, n, w, j) {
      var f: nat :| InBodyLanguage(s, e, f, n) && LitAt(s, f, w) && LineRest(s, f + |w|, j);
      ShortCloseComplete(s, e, n, w, f, j);
    }
  }

  lemma ShortCloseIntro(s: string, e: nat, n: nat, w: string, f: nat, j: nat)
    requires InBodyLanguage(s, e, f, n) && LitAt(s, f, w) && LineRest(s, f + |w|, j)
    ensures IsShortClose(s, e, n, w, j)
  {
  }

  lemma ShortCloseComplete(s: string, e: nat, n: nat, w: string, f: nat, j: nat)
    requires e <= |s| && |w| > 0 && w[0] == '<'
    requires InBodyLanguage(s, e, f, n) && LitAt(s, f, w) && LineRest(s, f + |w|, j)
    ensures ShortClose(s, e, n, w) == Some(j)
  {
    BodyLanguageChars(s, e, f, n);
    LitAtHead(s, f, w);
    SkipWhileExact(s, e, f, BodyChar);
    ShortBodyExactly(s, e, f, n);
    RestOfLineExact(s, f + |w|, j);
  }

  // `s[i..j]` is in `[ \t]+/// <typeparam name\s*=\s*"[^"]*">\s*</typeparam>[^\n]*\n`.
  ghost predicate IsEmptyTypeParam(s: string, i: nat, j: nat) {
    exists p: nat, q: nat ::
      IsIndented(s, i, "/// <typeparam name", p) && IsNameAttr(s, p, q) && IsSpacedClose(s, q, "</typeparam>", j)
  }

  /** The rule of line 18, replaced by nothing (line 108). */
  function MatchEmptyTypeParam(s: string, i: nat): (r: Option<Found>)
    requires i <= |s|
    ensures r.Some? ==> i < r.value.end <= |s| && r.value.repl == ""
  {
    match IndentedLit(s, i, "/// <typeparam name")
    case None => None
    case Some(p) =>
      match NameAttr(s, p)
      case None => None
      case Some(q) =>
        match SpacedClose(s, q, "</typeparam>")
        case None => None
        case Some(j) => Some(Found(j, ""))
  }

  /** The rule deletes exactly the lines holding an empty `<typeparam>`. */
  lemma EmptyTypeParamExactly(s: string, i: nat, j: nat)
    requires i <= |s|
    ensures MatchEmptyTypeParam(s, i) == Some(Found(j, "")) <==> IsEmptyTypeParam(s, i, j)
  {
    if MatchEmptyTypeParam(s, i) == Some(Found(j, "")) {
      var p := IndentedLit(s, i, "/// <typeparam name").value;
      var q := NameAttr(s, p).value;
      EmptyTypeParamParts(s, i, p, q, j);
    }
    if IsEmptyTypeParam(s, i, j) {
      var p: nat, q: nat :|
        IsIndented(s, i, "/// <typeparam name", p) && IsNameAttr(s, p, q) && IsSpacedClose(s, q, "</typeparam>", j);
      EmptyTypeParamParts(s, i, p, q, j);
    }
  }

  lemma EmptyTypeParamParts(s: string, i: nat, p: nat, q: nat, j: nat)
    requires i <= |s| && p <= |s| && q <= |s|
    ensures IndentedLit(s, i, "/// <typeparam name") == Some(p) <==> IsIndented(s, i, "/// <typeparam name", p)
    ensures NameAttr(s, p) == Some(q) <==> IsNameAttr(s, p, q)
    ensures SpacedClose(s, q, "</typeparam>") == Some(j) <==> IsSpacedClose(s, q, "</typeparam>", j)
  {
    IndentedLitExactly(s, i, "/// <typeparam name", p);
    NameAttrExactly(s, p, q);
    SpacedCloseExactly(s, q, "</typeparam>", j);
  }

  // `s[i..j]` is in `[ \t]+/// <returns>\s*</returns>[^\n]*\n`.
  ghost predicate IsEmptyReturns(s: string, i: nat, j: nat) {
    exists q: nat :: IsIndented(s, i, "/// <returns>", q) && IsSpacedClose(s, q, "</returns>", j)
  }

  /** The rule of line 19, replaced by nothing (line 52). */
  function MatchEmptyReturns(s: string, i: nat): (r: Option<Found>)
    requires i <= |s|
    ensures r.Some? ==> i < r.value.end <= |s| && r.value.repl == ""
  {
    match IndentedLit(s, i, "/// <returns>")
    case None => None
    case Some(q) =>
      match SpacedClose(s, q, "</returns>")
      case None => None
      case Some(j) => Some(Found(j, ""))
  }

  /** The rule deletes exactly the lines holding an empty `<returns>`. */
  lemma EmptyReturnsExactly(s: string, i: nat, j: nat)
    requires i <= |s|
    ensures MatchEmptyReturns(s, i) == Some(Found(j, "")) <==> IsEmptyReturns(s, i, j)
  {
    if MatchEmptyReturns(s, i) == Some(Found(j, "")) {
      var q := IndentedLit(s, i, "/// <returns>").value;
      IndentedLitExactly(s, i, "/// <returns>", q);
      SpacedCloseExactly(s, q, "</returns>", j);
    }
    if IsEmptyReturns(s, i, j) {
      var q: nat :| IsIndented(s, i, "/// <returns>", q) && IsSpacedClose(s, q, "</returns>", j);
      IndentedLitExactly(s, i, "/// <returns>", q);
      SpacedCloseExactly(s, q, "</returns>", j);
    }
  }

  // `s[i..j]` is in `[ \t]+/// <param name\s*=\s*"[^"]*">\s*(\w*\s*){0,n}\.?\s*</param>[^\n]*\n`.
  ghost predicate IsShortParam(s: string, i: nat, n: nat, j: nat) {
    exists p: nat, e: nat ::
      IsIndented(s, i, "/// <param name", p) && IsNameAttr(s, p, e) && IsShortClose(s, e, n, "</param>", j)
  }

  /** The rule of line 36 for the threshold `n`, replaced by nothing (line 107). */
  function MatchShortParam(s: string, i: nat, n: nat): (r: Option<Found>)
    requires i <= |s|
    ensures r.Some? ==> i < r.value.end <= |s| && r.value.repl == ""
  {
    match IndentedLit(s, i, "/// <param name")
    case None => None
    case Some(p) =>
      match NameAttr(s, p)
      case None => None
      case Some(e) =>
        match ShortClose(s, e, n, "</param>")
        case None => None
        case Some(j) => Some(Found(j, ""))
  }

  /** The rule deletes exactly the `<param>` lines whose description has at
      most `n` words and at most one full stop after them. */
  lemma ShortParamExactly(s: string, i: nat, n: nat, j: nat)
    requires i <= |s|
    ensures MatchShortParam(s, i, n) == Some(Found(j, "")) <==> IsShortParam(s, i, n, j)
  {
    if MatchShortParam(s, i, n) == Some(Found(j, "")) {
      var p := IndentedLit(s, i, "/// <param name").value;
      var e := NameAttr(s, p).value;
      ShortParamParts(s, i, p, e, n, j);
    }
    if IsShortParam(s, i, n, j) {
      var p: nat, e: nat :|
        IsIndented(s, i, "/// <param name", p) && IsNameAttr(s, p, e) && IsShortClose(s, e, n, "</param>", j);
      ShortParamParts(s, i, p, e, n, j);
    }
  }

  lemma ShortParamParts(s: string, i: nat, p: nat, e: nat, n: nat, j: nat)
    requires i <= |s| && p <= |s| && e <= |s|
    ensures IndentedLit(s, i, "/// <param name") == Some(p) <==> IsIndented(s, i, "/// <param name", p)
    ensures NameAttr(s, p) == Some(e) <==> IsNameAttr(s, p, e)
    ensures ShortClose(s, e, n, "</param>") == Some(j) <==> IsShortClose(s, e, n, "</param>", j)
  {
    IndentedLitExactly(s, i, "/// <param name", p);
    NameAttrExactly(s, p, e);
    ShortCloseExactly(s, e, n, "</param>", j);
  }
}
