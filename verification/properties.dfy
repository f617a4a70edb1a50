/**
 * The two auto-property rules (CSharpCompressors.cs lines 25-26, applied by
 * `CompressProperties`, lines 88-93): a property body spread over several
 * lines, `{ get; set; }` in either order and with an optional `protected` or
 * `private` setter, is folded onto the line before it.
 */
module Properties {
  import opened Scan

  /** The values the `modifier` group can capture. */
  predicate IsModifier(m: string) {
    m == "protected " || m == "private " || m == ""
  }

  /** The replacement ` { get; ${modifier}set; }`. */
  function PropertyLine(m: string): string {
    " { get; " + m + "set; }"
  }

  /** The optional group `(protected |private )?`: the first alternative
      that is there, else nothing. */
  function ModifierAt(s: string, e: nat): (m: string)
    ensures IsModifier(m)
    ensures m != "" ==> LitAt(s, e, m)
  {
    if LitAt(s, e, "protected ") then "protected "
    else if LitAt(s, e, "private ") then "private "
    else ""
  }

  /** When a modifier and then `set;` follow, the group captures exactly that
      modifier: no alternative is a prefix of another's continuation. */
  lemma ModifierAtExact(s: string, e: nat, m: string)
    requires IsModifier(m) && LitAt(s, e, m + "set;")
    ensures ModifierAt(s, e) == m
  {
    LitAtAppend(s, e, m, "set;");
    if m == "private " {
      LitAtExcludes(s, e, "private ", "protected ", 2);
    } else if m == "" {
      LitAtExcludes(s, e, "set;", "protected ", 0);
      LitAtExcludes(s, e, "set;", "private ", 0);
    }
  }

  // `s[p..q]` is the literal `w` followed by the white space `\s+` after it,
  // all of it (the next character is not white space).
  predicate IsSpacedLit(s: string, p: nat, w: string, q: nat) {
    LitAt(s, p, w) && p + |w| < q && Span(s, p + |w|, q, Space) && (q == |s| || !IsSpace(s[q]))
  }

  /** Matches the literal `w` and then `\s+` at `p`. */
  function SpacedLit(s: string, p: nat, w: string): (r: Option<nat>)
    requires p <= |s|
  {
    if !LitAt(s, p, w) then None
    else
      var q := SkipWhile(s, p + |w|, Space);
      if q == p + |w| then None else Some(q)
  }

  lemma SpacedLitExactly(s: string, p: nat, w: string, q: nat)
    requires p <= |s|
    ensures SpacedLit(s, p, w) == Some(q) <==> IsSpacedLit(s, p, w, q)
  {
    if IsSpacedLit(s, p, w, q) {
      SkipWhileExact(s, p + |w|, q, Space);
    }
  }

  // `s[i..j]` is in `\s*\{\s+get;\s+(?<modifier>protected |private )?set;\s+\}`
  // with `m` captured as the modifier.
  ghost predicate IsGetSet(s: string, i: nat, j: nat, m: string) {
    exists c: nat, d: nat, e: nat, f: nat ::
      && Span(s, i, c, Space) && IsSpacedLit(s, c, "{", d) && IsSpacedLit(s, d, "get;", e)
      && IsModifier(m) && IsSpacedLit(s, e, m + "set;", f) && f < |s| && s[f] == '}' && j == f + 1
  }

  // `s[i..j]` is in `\s*\{\s+(?<modifier>protected |private )?set;\s+get;\s+\}`
  // with `m` captured as the modifier.
  ghost predicate IsSetGet(s: string, i: nat, j: nat, m: string) {
    exists c: nat, d: nat, e: nat, f: nat ::
      && Span(s, i, c, Space) && IsSpacedLit(s, c, "{", d) && IsModifier(m)
      && IsSpacedLit(s, d, m + "set;", e) && IsSpacedLit(s, e, "get;", f) && f < |s| && s[f] == '}' && j == f + 1
  }

  /** The closing brace of the property body. */
  function CloseBrace(s: string, f: Option<nat>): (r: Option<nat>)
  {
    match f
    case Some(f) => if f < |s| && s[f] == '}' then Some(f + 1) else None
    case None => None
  }

  /** The rule of line 25, replaced by the one-line form (line 90). */
  function MatchGetSet(s: string, i: nat): (r: Option<Found>)
    requires i <= |s|
    ensures r.Some? ==> i < r.value.end <= |s|
    ensures r.Some? ==> exists m :: IsModifier(m) && r.value.repl == PropertyLine(m)
  {
    match SpacedLit(s, SkipWhile(s, i, Space), "{")
    case None => None
    case Some(d) =>
      match SpacedLit(s, d, "get;")
      case None => None
      case Some(e) =>
        var m := ModifierAt(s, e);
        match CloseBrace(s, SpacedLit(s, e, m + "set;"))
        case None => None
        case Some(j) => Some(Found(j, PropertyLine(m)))
  }

  /** The rule of line 26, replaced by the same one-line form (line 91). */
  function MatchSetGet(s: string, i: nat): (r: Option<Found>)
    requires i <= |s|
    ensures r.Some? ==> i < r.value.end <= |s|
    ensures r.Some? ==> exists m :: IsModifier(m) && r.value.repl == PropertyLine(m)
  {
    match SpacedLit(s, SkipWhile(s, i, Space), "{")
    case None => None
    case Some(d) =>
      var m := ModifierAt(s, d);
      match SpacedLit(s, d, m + "set;")
      case None => None
      case Some(e) =>
        match CloseBrace(s, SpacedLit(s, e, "get;"))
        case None => None
        case Some(j) => Some(Found(j, PropertyLine(m)))
  }

  /** The first rule folds exactly a get-then-set body, keeping its modifier. */
  lemma GetSetExactly(s: string, i: nat, j: nat, m: string)
    requires i <= |s| && IsModifier(m)
    ensures MatchGetSet(s, i) == Some(Found(j, PropertyLine(m))) <==> IsGetSet(s, i, j, m)
  {
    if MatchGetSet(s, i) == Some(Found(j, PropertyLine(m))) {
      GetSetSound(s, i, j, m);
    }
    if IsGetSet(s, i, j, m) {
      GetSetComplete(s, i, j, m);
    }
  }

  lemma GetSetSound(s: string, i: nat, j: nat, m: string)
    requires i <= |s| && IsModifier(m) && MatchGetSet(s, i) == Some(Found(j, PropertyLine(m)))
    ensures IsGetSet(s, i, j, m)
  {
    var c := SkipWhile(s, i, Space);
    var d := SpacedLit(s, c, "{").value;
    var e := SpacedLit(s, d, "get;").value;
    var m' := ModifierAt(s, e);
    var f := SpacedLit(s, e, m' + "set;").value;
    PropertyLineInjective(m, m');
    SpacedLitExactly(s, c, "{", d);
    SpacedLitExactly(s, d, "get;", e);
    SpacedLitExactly(s, e, m + "set;", f);
    GetSetIntro(s, i, c, d, e, f, m);
  }

  lemma GetSetIntro(s: string, i: nat, c: nat, d: nat, e: nat, f: nat, m: string)
    requires Span(s, i, c, Space) && IsSpacedLit(s, c, "{", d) && IsSpacedLit(s, d, "get;", e)
    requires IsModifier(m) && IsSpacedLit(s, e, m + "set;", f) && f < |s| && s[f] == '}'
    ensures IsGetSet(s, i, f + 1, m)
  {
  }

  lemma GetSetComplete(s: string, i: nat, j: nat, m: string)
    requires i <= |s| && IsGetSet(s, i, j, m)
    ensures MatchGetSet(s, i) == Some(Found(j, PropertyLine(m)))
  {
    var c: nat, d: nat, e: nat, f: nat :|
      && Span(s, i, c, Space) && IsSpacedLit(s, c, "{", d) && IsSpacedLit(s, d, "get;", e)
      && IsModifier(m) && IsSpacedLit(s, e, m + "set;", f) && f < |s| && s[f] == '}' && j == f + 1;
    GetSetAt(s, i, c, d, e, f, j, m);
  }

  lemma GetSetAt(s: string, i: nat, c: nat, d: nat, e: nat, f: nat, j: nat, m: string)
    requires i <= |s| && Span(s, i, c, Space) && IsSpacedLit(s, c, "{", d) && IsSpacedLit(s, d, "get;", e)
    requires IsModifier(m) && IsSpacedLit(s, e, m + "set;", f) && f < |s| && s[f] == '}' && j == f + 1
    ensures MatchGetSet(s, i) == Some(Found(j, PropertyLine(m)))
  {
    LitAtHead(s, c, "{");
    SkipWhileExact(s, i, c, Space);
    SpacedLitExactly(s, c, "{", d);
    SpacedLitExactly(s, d, "get;", e);
    ModifierAtExact(s, e, m);
    SpacedLitExactly(s, e, m + "set;", f);
  }

  /** The second rule folds exactly a set-then-get body, keeping its modifier. */
  lemma SetGetExactly(s: string, i: nat, j: nat, m: string)
    requires i <= |s| && IsModifier(m)
    ensures MatchSetGet(s, i) == Some(Found(j, PropertyLine(m))) <==> IsSetGet(s, i, j, m)
  {
    if MatchSetGet(s, i) == Some(Found(j, PropertyLine(m))) {
      SetGetSound(s, i, j, m);
    }
    if IsSetGet(s, i, j, m) {
      SetGetComplete(s, i, j, m);
    }
  }

  lemma SetGetComplete(s: string, i: nat, j: nat, m: string)
    requires i <= |s| && IsSetGet(s, i, j, m)
    ensures MatchSetGet(s, i) == Some(Found(j, PropertyLine(m)))
  {
    var c: nat, d: nat, e: nat, f: nat :|
      && Span(s, i, c, Space) && IsSpacedLit(s, c, "{", d) && IsModifier(m)
      && IsSpacedLit(s, d, m + "set;", e) && IsSpacedLit(s, e, "get;", f) && f < |s| && s[f] == '}' && j == f + 1;
    SetGetAt(s, i, c, d, e, f, j, m);
  }

  lemma SetGetSound(s: string, i: nat, j: nat, m: string)
    requires i <= |s| && IsModifier(m) && MatchSetGet(s, i) == Some(Found(j, PropertyLine(m)))
    ensures IsSetGet(s, i, j, m)
  {
    var c := SkipWhile(s, i, Space);
    var d := SpacedLit(s, c, "{").value;
    var m' := ModifierAt(s, d);
    var e := SpacedLit(s, d, m' + "set;").value;
    var f := SpacedLit(s, e, "get;").value;
    PropertyLineInjective(m, m');
    SpacedLitExactly(s, c, "{", d);
    SpacedLitExactly(s, d, m + "set;", e);
    SpacedLitExactly(s, e, "get;", f);
    SetGetIntro(s, i, c, d, e, f, m);
  }

  lemma SetGetIntro(s: string, i: nat, c: nat, d: nat, e: nat, f: nat, m: string)
    requires Span(s, i, c, Space) && IsSpacedLit(s, c, "{", d) && IsModifier(m)
    requires IsSpacedLit(s, d, m + "set;", e) && IsSpacedLit(s, e, "get;", f) && f < |s| && s[f] == '}'
    ensures IsSetGet(s, i, f + 1, m)
  {
  }

  lemma SetGetAt(s: string, i: nat, c: nat, d: nat, e: nat, f: nat, j: nat, m: string)
    requires i <= |s| && Span(s, i, c, Space) && IsSpacedLit(s, c, "{", d) && IsModifier(m)
    requires IsSpacedLit(s, d, m + "set;", e) && IsSpacedLit(s, e, "get;", f) && f < |s| && s[f] == '}' && j == f + 1
    ensures MatchSetGet(s, i) == Some(Found(j, PropertyLine(m)))
  {
    LitAtHead(s, c, "{");
    SkipWhileExact(s, i, c, Space);
    SpacedLitExactly(s, c, "{", d);
    ModifierAtExact(s, d, m);
    SpacedLitExactly(s, d, m + "set;", e);
    SpacedLitExactly(s, e, "get;", f);
  }

  /** Different modifiers give different replacements. */
  lemma PropertyLineInjective(m: string, m': string)
    requires IsModifier(m) && IsModifier(m') && PropertyLine(m) == PropertyLine(m')
    ensures m == m'
  {
    assert |PropertyLine(m)| == 14 + |m|;
    assert |m| == |m'|;
  }
}
