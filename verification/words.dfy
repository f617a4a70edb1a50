/**
 * The body of a short doc tag, `\s*(\w*\s*){0,N}\.?\s*`, as it appears in the
 * `<param>` rule (CSharpCompressors.cs line 36) and the short-summary rule
 * (line 37): white space and at most `N` words, then at most one full stop
 * and white space. The matcher counts words; the regex repeats a group. The
 * lemmas here show that the two agree.
 */
module Words {
  import opened Scan

  /** A word begins at `x`, inside a text that starts at `p`. */
  predicate WordStart(s: string, p: nat, x: nat)
    requires p <= x < |s|
  {
    IsWord(s[x]) && (x == p || !IsWord(s[x - 1]))
  }

  /** The number of words (maximal runs of `\w`) in `s[p..q]`. */
  function Words(s: string, p: nat, q: nat): nat
    requires p <= q <= |s|
    decreases q
  {
    if q == p then 0 else Words(s, p, q - 1) + (if WordStart(s, p, q - 1) then 1 else 0)
  }

  // `s[p..q]` is in `(\w*\s*){0,n}`: the regex group repeated at most `n` times.
  ghost predicate Repeats(s: string, p: nat, q: nat, n: nat)
    decreases n
  {
    || p == q
    || (n > 0 && exists u: nat, v: nat ::
          p <= u <= v <= q && Repeats(s, p, u, n - 1) && Span(s, u, v, Word) && Span(s, v, q, Space))
  }

  // `s[e..f]` is in `\s*(\w*\s*){0,n}\.?\s*`.
  ghost predicate InBodyLanguage(s: string, e: nat, f: nat, n: nat) {
    exists a: nat, b: nat, c: nat ::
      && e <= a <= b <= c <= f <= |s| && Span(s, e, a, Space) && Repeats(s, a, b, n)
      && (c == b || (c == b + 1 && s[b] == '.')) && Span(s, c, f, Space)
  }

  /** What the matcher checks of a body `s[e..f]`: up to the first character
      that is neither white space nor a word character it counts at most `n`
      words, and that character, if it is inside the body, is a full stop
      followed by white space only. */
  predicate ShortBody(s: string, e: nat, f: nat, n: nat)
    requires e <= f <= |s|
  {
    var k := SkipWhile(s, e, SpaceOrWord);
    k <= f && Words(s, e, k) <= n && (k == f || (s[k] == '.' && Span(s, k + 1, f, Space)))
  }

  /** The matcher's test and the regex agree on every body that runs to the
      first character the body cannot contain. */
  lemma ShortBodyExactly(s: string, e: nat, f: nat, n: nat)
    requires Span(s, e, f, BodyChar) && (f == |s| || !In(s[f], BodyChar))
    ensures ShortBody(s, e, f, n) <==> InBodyLanguage(s, e, f, n)
  {
    if ShortBody(s, e, f, n) {
      ShortBodySound(s, e, f, n);
    }
    if InBodyLanguage(s, e, f, n) {
      var a: nat, b: nat, c: nat :|
        && e <= a <= b <= c <= f <= |s| && Span(s, e, a, Space) && Repeats(s, a, b, n)
        && (c == b || (c == b + 1 && s[b] == '.')) && Span(s, c, f, Space);
      ShortBodyComplete(s, e, a, b, c, f, n);
    }
  }

  /** A body in the language holds only white space, word characters and full stops. */
  lemma BodyLanguageChars(s: string, e: nat, f: nat, n: nat)
    requires InBodyLanguage(s, e, f, n)
    ensures Span(s, e, f, BodyChar)
  {
    var a: nat, b: nat, c: nat :|
      && e <= a <= b <= c <= f <= |s| && Span(s, e, a, Space) && Repeats(s, a, b, n)
      && (c == b || (c == b + 1 && s[b] == '.')) && Span(s, c, f, Space);
    RepeatsBounded(s, a, b, n);
    forall m | e <= m < f
      ensures In(s[m], BodyChar)
    {
      if m < a {
        assert In(s[m], Space);
      } else if m < b {
        assert In(s[m], SpaceOrWord);
      } else if m >= c {
        assert In(s[m], Space);
      }
    }
  }

  lemma ShortBodySound(s: string, e: nat, f: nat, n: nat)
    requires e <= f <= |s| && ShortBody(s, e, f, n)
    ensures InBodyLanguage(s, e, f, n)
  {
    var k := SkipWhile(s, e, SpaceOrWord);
    var a := SkipWhile(s, e, Space);
    assert Span(s, e, a, SpaceOrWord) by {
      forall m | e <= m < a
        ensures In(s[m], SpaceOrWord)
      {
        assert In(s[m], Space);
      }
    }
    SkipWhileCovers(s, e, a, SpaceOrWord);
    SpacesHaveNoWords(s, e, a);
    WordsSplit(s, e, a, k);
    if a < k {
      assert IsWord(s[a]) by {
        assert In(s[a], SpaceOrWord);
      }
      CountedRepeats(s, a, k);
      RepeatsMonotone(s, a, k, Words(s, a, k), n);
    }
    if k == f {
      BodyIntro(s, e, a, k, k, f, n);
    } else {
      BodyIntro(s, e, a, k, k + 1, f, n);
    }
  }

  lemma BodyIntro(s: string, e: nat, a: nat, b: nat, c: nat, f: nat, n: nat)
    requires e <= a <= b <= c <= f <= |s| && Span(s, e, a, Space) && Repeats(s, a, b, n)
    requires (c == b || (c == b + 1 && s[b] == '.')) && Span(s, c, f, Space)
    ensures InBodyLanguage(s, e, f, n)
  {
  }

  lemma ShortBodyComplete(s: string, e: nat, a: nat, b: nat, c: nat, f: nat, n: nat)
    requires Span(s, e, f, BodyChar) && (f == |s| || !In(s[f], BodyChar))
    requires e <= a <= b <= c <= f && Span(s, e, a, Space) && Repeats(s, a, b, n)
    requires (c == b || (c == b + 1 && s[b] == '.')) && Span(s, c, f, Space)
    ensures ShortBody(s, e, f, n)
  {
    RepeatsBounded(s, a, b, n);
    SpacesHaveNoWords(s, e, a);
    WordsSplit(s, e, a, b);
    if c == b {
      SpacesHaveNoWords(s, b, f);
      WordsSplit(s, e, b, f);
      assert Span(s, e, f, SpaceOrWord) by {
        forall m | e <= m < f
          ensures In(s[m], SpaceOrWord)
        {
          if m < a {
            assert In(s[m], Space);
          } else if m < b {
            assert In(s[m], SpaceOrWord);
          } else {
            assert In(s[m], Space);
          }
        }
      }
      assert f == |s| || !In(s[f], SpaceOrWord);
      SkipWhileExact(s, e, f, SpaceOrWord);
    } else {
      assert Span(s, e, b, SpaceOrWord) by {
        forall m | e <= m < b
          ensures In(s[m], SpaceOrWord)
        {
          if m < a {
            assert In(s[m], Space);
          } else {
            assert In(s[m], SpaceOrWord);
          }
        }
      }
      SkipWhileExact(s, e, b, SpaceOrWord);
    }
  }

  /** White space holds no word. */
  lemma {:induction false} SpacesHaveNoWords(s: string, p: nat, q: nat)
    requires Span(s, p, q, Space)
    ensures Words(s, p, q) == 0
    decreases q
  {
    if q > p {
      assert In(s[q - 1], Space);
      SpacesHaveNoWords(s, p, q - 1);
    }
  }

  /** A run of word characters is one word. */
  lemma {:induction false} RunIsOneWord(s: string, u: nat, v: nat)
    requires u < v && Span(s, u, v, Word)
    ensures Words(s, u, v) == 1
    decreases v
  {
    assert In(s[v - 1], Word);
    if v - 1 > u {
      assert In(s[v - 2], Word);
      RunIsOneWord(s, u, v - 1);
    }
  }

  /** Counting the words of two adjacent pieces counts twice a word that
      straddles the cut. */
  lemma {:induction false} WordsSplit(s: string, p: nat, m: nat, q: nat)
    requires p <= m <= q <= |s|
    ensures Words(s, p, m) + Words(s, m, q)
         == Words(s, p, q) + (if p < m < q && IsWord(s[m - 1]) && IsWord(s[m]) then 1 else 0)
    decreases q
  {
    if q > m {
      WordsSplit(s, p, m, q - 1);
      if q - 1 > m {
        assert WordStart(s, p, q - 1) == WordStart(s, m, q - 1);
      }
    }
  }

  /** The regex group repeated at most `n` times covers white space and
      word characters making at most `n` words. */
  lemma {:induction false} RepeatsBounded(s: string, p: nat, q: nat, n: nat)
    requires q <= |s| && Repeats(s, p, q, n)
    ensures p <= q && Span(s, p, q, SpaceOrWord) && Words(s, p, q) <= n
    decreases n
  {
    if p != q {
      var u: nat, v: nat :|
        p <= u <= v <= q && Repeats(s, p, u, n - 1) && Span(s, u, v, Word) && Span(s, v, q, Space);
      RepeatsBounded(s, p, u, n - 1);
      SpacesHaveNoWords(s, v, q);
      WordsSplit(s, u, v, q);
      if v < q {
        assert In(s[v], Space);
      }
      if u < v {
        RunIsOneWord(s, u, v);
      }
      WordsSplit(s, p, u, q);
      forall m | p <= m < q
        ensures In(s[m], SpaceOrWord)
      {
        if m < u {
          assert In(s[m], SpaceOrWord);
        } else if m < v {
          assert In(s[m], Word);
        } else {
          assert In(s[m], Space);
        }
      }
    }
  }

  /** Allowing more repetitions never rejects a body. */
  lemma {:induction false} RepeatsMonotone(s: string, p: nat, q: nat, n: nat, n': nat)
    requires Repeats(s, p, q, n) && n <= n'
    ensures Repeats(s, p, q, n')
    decreases n
  {
    if p != q {
      var u: nat, v: nat :|
        p <= u <= v <= q && Repeats(s, p, u, n - 1) && Span(s, u, v, Word) && Span(s, v, q, Space);
      RepeatsMonotone(s, p, u, n - 1, n' - 1);
      RepeatsStep(s, p, u, v, q, n');
    }
  }

  lemma RepeatsStep(s: string, p: nat, u: nat, v: nat, q: nat, n: nat)
    requires n > 0 && p <= u <= v <= q && Repeats(s, p, u, n - 1) && Span(s, u, v, Word) && Span(s, v, q, Space)
    ensures Repeats(s, p, q, n)
  {
  }

  /** White space and word characters that begin with a word are the group
      repeated once per word. */
  lemma {:induction false} CountedRepeats(s: string, p: nat, q: nat)
    requires p < q && Span(s, p, q, SpaceOrWord) && IsWord(s[p])
    ensures Repeats(s, p, q, Words(s, p, q))
    decreases q
  {
    var u, v := LastWord(s, p, q);
    if u > p {
      CountedRepeats(s, p, u);
    }
    RepeatsStep(s, p, u, v, q, Words(s, p, u) + 1);
  }

  /** The last word of `s[p..q]` and the white space after it. */
  lemma LastWord(s: string, p: nat, q: nat) returns (u: nat, v: nat)
    requires p < q && Span(s, p, q, SpaceOrWord) && IsWord(s[p])
    ensures p <= u < v <= q && Span(s, u, v, Word) && Span(s, v, q, Space)
    ensures Words(s, p, q) == Words(s, p, u) + 1
  {
    v := BackWhile(s, p, q, Space);
    BackWhileStops(s, p, p, q, Space);
    u := BackWhile(s, p, v, Word);
    assert u < v by {
      assert In(s[v - 1], SpaceOrWord);
    }
    WordsOfLastWord(s, p, u, v, q);
  }

  /** A word that ends the text, but for white space, adds one to the count. */
  lemma WordsOfLastWord(s: string, p: nat, u: nat, v: nat, q: nat)
    requires p <= u < v <= q <= |s| && Span(s, u, v, Word) && Span(s, v, q, Space)
    requires u == p || !In(s[u - 1], Word)
    ensures Words(s, p, q) == Words(s, p, u) + 1
  {
    SpacesHaveNoWords(s, v, q);
    RunIsOneWord(s, u, v);
    WordsSplit(s, u, v, q);
    if v < q {
      assert In(s[v], Space);
    }
    WordsSplit(s, p, u, q);
  }

  /** White space in front of a text adds no word to it. */
  lemma LeadingSpaces(s: string, p: nat, w: nat, q: nat)
    requires p <= w <= q <= |s| && Span(s, p, w, Space)
    ensures Words(s, w, q) == Words(s, p, q)
  {
    SpacesHaveNoWords(s, p, w);
    WordsSplit(s, p, w, q);
    if p < w < q {
      assert In(s[w - 1], Space);
    }
  }

  /** Any white space and at most `n` words are in the short-body language. */
  lemma SpacedWords(s: string, e: nat, f: nat, n: nat)
    requires e <= f <= |s| && Span(s, e, f, SpaceOrWord) && Words(s, e, f) <= n
    ensures InBodyLanguage(s, e, f, n)
  {
    var w := SkipWhile(s, e, Space);
    if w < f {
      assert In(s[w], SpaceOrWord);
      LeadingSpaces(s, e, w, f);
      CountedRepeats(s, w, f);
      RepeatsMonotone(s, w, f, Words(s, w, f), n);
      BodyIntro(s, e, w, f, f, f, n);
    } else {
      assert Span(s, e, f, Space);
      BodyIntro(s, e, f, f, f, f, n);
    }
  }

  /** A body of one space, white space and at most `n` words, and one more
      space is in the short-body language. */
  lemma PaddedWords(s: string, e: nat, f: nat, n: nat)
    requires e < f < |s| && s[e] == ' ' && s[f] == ' '
    requires Span(s, e + 1, f, SpaceOrWord) && Words(s, e + 1, f) <= n
    ensures InBodyLanguage(s, e, f + 1, n)
  {
    PaddedCount(s, e, f);
    PaddedSpan(s, e, f);
    SpacedWords(s, e, f + 1, n);
  }

  lemma PaddedCount(s: string, e: nat, f: nat)
    requires e < f < |s| && s[e] == ' ' && s[f] == ' '
    ensures Words(s, e, f + 1) == Words(s, e + 1, f)
  {
    LeadingSpaces(s, e, e + 1, f);
    assert !WordStart(s, e, f);
  }

  lemma PaddedSpan(s: string, e: nat, f: nat)
    requires e < f < |s| && s[e] == ' ' && s[f] == ' ' && Span(s, e + 1, f, SpaceOrWord)
    ensures Span(s, e, f + 1, SpaceOrWord)
  {
    assert In(s[e], SpaceOrWord) && In(s[f], SpaceOrWord);
  }
}
