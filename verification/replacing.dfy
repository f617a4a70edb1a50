// `Regex.Replace` as a scan over a table of matches: at each position the
// scan either replaces the match that starts there and resumes after it, or
// copies one character and moves on. The table is what one rule finds at
// every position of the original text; the scan itself does not depend on
// the rule.
module Replacing {
  import opened Scan

  // `ms[p]` is the match at `p`, if any: it ends after `p` and inside `s`.
  ghost predicate IsMatchTable(s: string, ms: seq<Option<Found>>) {
    |ms| == |s| && forall p :: 0 <= p < |ms| && ms[p].Some? ==> p < ms[p].value.end <= |s|
  }

  /** The scan of `Regex.Replace` from position `i` on, given the match at
      every position. */
  function ReplaceFrom(s: string, ms: seq<Option<Found>>, i: nat): string
    requires IsMatchTable(s, ms) && i <= |s|
    decreases |s| - i
  {
    if i == |s| then ""
    else
      match ms[i]
      case Some(f) => f.repl + ReplaceFrom(s, ms, f.end)
      case None => [s[i]] + ReplaceFrom(s, ms, i + 1)
  }

  /** Text in which no match starts is copied unchanged. */
  lemma {:induction false} ReplaceCopies(s: string, ms: seq<Option<Found>>, i: nat, k: nat)
    requires IsMatchTable(s, ms) && i <= k <= |s|
    requires forall p :: i <= p < k ==> ms[p].None?
    ensures ReplaceFrom(s, ms, i) == s[i..k] + ReplaceFrom(s, ms, k)
    decreases k - i
  {
    if i < k {
      assert ReplaceFrom(s, ms, i) == [s[i]] + ReplaceFrom(s, ms, i + 1);
      ReplaceCopies(s, ms, i + 1, k);
      assert s[i..k] == [s[i]] + s[i + 1..k];
    } else {
      assert s[i..k] == [];
    }
  }

  /** The text before the first match is copied, the match is replaced, and
      the scan resumes right after it. */
  lemma ReplaceFirstMatch(s: string, ms: seq<Option<Found>>, i: nat, k: nat)
    requires IsMatchTable(s, ms) && i <= k < |s| && ms[k].Some?
    requires forall p :: i <= p < k ==> ms[p].None?
    ensures ReplaceFrom(s, ms, i) == s[i..k] + ms[k].value.repl + ReplaceFrom(s, ms, ms[k].value.end)
  {
    ReplaceCopies(s, ms, i, k);
  }

  /** `a` can be obtained from `b` by deleting characters. */
  ghost predicate IsSubsequence(a: string, b: string)
    decreases |b|
  {
    |a| == 0 || (|b| > 0 && ((a[0] == b[0] && IsSubsequence(a[1..], b[1..])) || IsSubsequence(a, b[1..])))
  }

  lemma {:induction false} SubsequenceAfter(a: string, u: string, b: string)
    requires IsSubsequence(a, b)
    ensures IsSubsequence(a, u + b)
    decreases |u|
  {
    if |u| > 0 {
      SubsequenceAfter(a, u[1..], b);
      assert (u + b)[1..] == u[1..] + b;
      assert IsSubsequence(a, (u + b)[1..]);
    } else {
      assert u + b == b;
    }
  }

  lemma SubsequenceCons(c: char, a: string, b: string)
    requires IsSubsequence(a, b)
    ensures IsSubsequence([c] + a, [c] + b)
  {
    assert ([c] + a)[1..] == a && ([c] + b)[1..] == b;
  }

  /** A scan whose matches all have empty replacements only deletes text. */
  lemma {:induction false} DeletionsKeepSubsequence(s: string, ms: seq<Option<Found>>, i: nat)
    requires IsMatchTable(s, ms) && i <= |s|
    requires forall p :: 0 <= p < |ms| && ms[p].Some? ==> ms[p].value.repl == ""
    ensures IsSubsequence(ReplaceFrom(s, ms, i), s[i..])
    decreases |s| - i
  {
    if i < |s| {
      match ms[i]
      case Some(f) =>
        DeletionsKeepSubsequence(s, ms, f.end);
        assert ReplaceFrom(s, ms, i) == ReplaceFrom(s, ms, f.end);
        assert s[i..] == s[i..f.end] + s[f.end..];
        SubsequenceAfter(ReplaceFrom(s, ms, f.end), s[i..f.end], s[f.end..]);
      case None =>
        DeletionsKeepSubsequence(s, ms, i + 1);
        assert s[i..] == [s[i]] + s[i + 1..];
        SubsequenceCons(s[i], ReplaceFrom(s, ms, i + 1), s[i + 1..]);
    }
  }

  /** No character of `t` is in `bad`. */
  predicate Avoids(t: string, bad: set<char>) {
    forall c | c in t :: c !in bad
  }

  /** A slice of a text that avoids `bad` avoids it too. */
  lemma SliceAvoids(s: string, x: nat, y: nat, bad: set<char>)
    requires Avoids(s, bad) && x <= y <= |s|
    ensures Avoids(s[x..y], bad)
  {
    forall c | c in s[x..y]
      ensures c !in bad
    {
      var k :| 0 <= k < y - x && s[x..y][k] == c;
      assert s[x + k] in s;
    }
  }

  /** When neither the text nor any replacement holds a character of `bad`,
      neither does the result of the scan. */
  lemma {:induction false} ReplaceAvoids(s: string, ms: seq<Option<Found>>, i: nat, bad: set<char>)
    requires IsMatchTable(s, ms) && i <= |s| && Avoids(s, bad)
    requires forall p :: 0 <= p < |ms| && ms[p].Some? ==> Avoids(ms[p].value.repl, bad)
    ensures Avoids(ReplaceFrom(s, ms, i), bad)
    decreases |s| - i
  {
    if i < |s| {
      match ms[i]
      case Some(f) =>
        ReplaceAvoids(s, ms, f.end, bad);
      case None =>
        ReplaceAvoids(s, ms, i + 1, bad);
        assert s[i] in s;
    }
  }
}
