/** Knuth-Morris-Pratt: prefix table, search, and shortest repeating period. */
module Kmp {

  /** The first k characters of s[..n] are also its last k. */
  ghost predicate Border(s: string, n: nat, k: nat)
    requires n <= |s|
  {
    k <= n && s[..k] == s[n - k..n]
  }

  /** No proper border of s[..n] is longer than k. */
  ghost predicate NoneLonger(s: string, n: nat, k: int)
    requires n <= |s|
  {
    forall j: nat :: j < n && Border(s, n, j) ==> j <= k
  }

  /** k is the length of the longest proper border of s[..n]. */
  ghost predicate LongestBorder(s: string, n: nat, k: nat)
    requires n <= |s|
  {
    k < n && Border(s, n, k) && NoneLonger(s, n, k)
  }

  ghost predicate TableAt(s: string, lps: seq<int>, t: int)
    requires 0 <= t < |s| == |lps|
  {
    0 <= lps[t] && LongestBorder(s, t + 1, lps[t])
  }

  /** The entries before i are the longest borders of their prefixes. */
  ghost predicate TableTo(s: string, lps: seq<int>, i: int) {
    |lps| == |s| && forall t {:trigger TableAt(s, lps, t)} :: 0 <= t < |s| && t < i ==> TableAt(s, lps, t)
  }

  ghost predicate PrefixTable(s: string, lps: seq<int>) {
    TableTo(s, lps, |s|)
  }

  /** len is a border of s[..i], and no border of s[..i + 1] is longer than len + 1. */
  ghost predicate Candidate(s: string, i: int, len: int) {
    0 <= len < i < |s| && Border(s, i, len) && NoneLonger(s, i + 1, len + 1)
  }

  lemma BorderStep(s: string, n: nat, k: nat)
    requires k <= n < |s|
    ensures Border(s, n + 1, k + 1) <==> Border(s, n, k) && s[k] == s[n]
  {
    assert s[..k + 1] == s[..k] + [s[k]];
    assert s[n - k..n + 1] == s[n - k..n] + [s[n]];
  }

  lemma BorderOfBorder(s: string, n: nat, b: nat, a: nat)
    requires n <= |s| && Border(s, n, b) && a <= b
    ensures Border(s, n, a) <==> Border(s, b, a)
  {
    assert s[b - a..b] == s[..b][b - a..];
    assert s[n - a..n] == s[n - b..n][b - a..];
  }

  /** A border of s[..n+1] is at most one longer than the longest border of s[..n]. */
  lemma NextBorders(s: string, n: nat, len: nat)
    requires 0 < n < |s| && LongestBorder(s, n, len)
    ensures NoneLonger(s, n + 1, len + 1)
  {
    var next := n + 1;
    forall k: nat | k < next && Border(s, next, k) ensures k <= len + 1 {
      if k > 0 { BorderStep(s, n, k - 1); }
    }
  }

  /** A border of s[..n+1] other than the one just ruled out extends a border of s[..len]. */
  lemma ShorterBound(s: string, n: nat, len: nat, shorter: nat, k: nat)
    requires 0 < len < n < |s| && Border(s, n, len) && NoneLonger(s, len, shorter)
    requires s[n] != s[len] && k <= len && Border(s, n + 1, k + 1)
    ensures k <= shorter
  {
    BorderStep(s, n, k);
    BorderOfBorder(s, n, len, k);
  }

  /** When the candidate border of length len cannot be extended, the next one to try is the
      longest border of it. */
  lemma TryShorter(s: string, n: nat, len: nat, shorter: nat)
    requires 0 < len < n < |s| && Border(s, n, len) && LongestBorder(s, len, shorter)
    requires NoneLonger(s, n + 1, len + 1) && s[n] != s[len]
    ensures Border(s, n, shorter) && NoneLonger(s, n + 1, shorter + 1)
  {
    BorderOfBorder(s, n, len, shorter);
    var next := n + 1;
    forall k: nat | k < next && Border(s, next, k) ensures k <= shorter + 1 {
      if k > 0 { ShorterBound(s, n, len, shorter, k - 1); }
    }
  }

  /** A candidate that extends is the next entry. */
  lemma Extend(s: string, lps: seq<int>, i: int, len: int)
    requires TableTo(s, lps, i) && Candidate(s, i, len) && s[i] == s[len]
    ensures TableTo(s, lps[i := len + 1], i + 1) && (i + 1 < |s| ==> Candidate(s, i + 1, len + 1))
  {
    BorderStep(s, i, len);
    SetEntry(s, lps, i, len + 1);
    if i + 1 < |s| { NextBorders(s, i + 1, len + 1); }
  }

  /** A candidate that does not extend gives way to its own longest border. */
  lemma Shorten(s: string, lps: seq<int>, i: int, len: int)
    requires TableTo(s, lps, i) && Candidate(s, i, len) && s[i] != s[len] && len > 0
    ensures 0 <= lps[len - 1] < len && Candidate(s, i, lps[len - 1])
  {
    assert TableAt(s, lps, len - 1);
    TryShorter(s, i, len, lps[len - 1]);
  }

  /** With no candidate left the entry is 0. */
  lemma NoBorder(s: string, lps: seq<int>, i: int)
    requires TableTo(s, lps, i) && Candidate(s, i, 0) && s[i] != s[0]
    ensures TableTo(s, lps[i := 0], i + 1) && (i + 1 < |s| ==> Candidate(s, i + 1, 0))
  {
    BorderStep(s, i, 0);
    SetEntry(s, lps, i, 0);
    if i + 1 < |s| { NextBorders(s, i + 1, 0); }
  }

  lemma SetEntry(s: string, lps: seq<int>, i: int, k: int)
    requires TableTo(s, lps, i) && 0 <= i < |s| && 0 <= k && LongestBorder(s, i + 1, k)
    ensures TableTo(s, lps[i := k], i + 1)
  {
    var lps' := lps[i := k];
    forall t | 0 <= t < |s| && t <= i ensures TableAt(s, lps', t) {
      if t < i { assert TableAt(s, lps, t); }
    }
  }

  /** steps counts loop iterations. */
  method BuildPrefixTable(pattern: string) returns (lps: seq<int>, ghost steps: nat)
    ensures PrefixTable(pattern, lps)
    ensures steps <= 2 * |pattern|
  {
    var m := |pattern|;
    lps := seq(m, _ => 0);
    var len := 0;
    var i := 1;
    steps := 0;
    while i < m
      invariant 0 <= len < i && |lps| == m && TableTo(pattern, lps, i)
      invariant i < m ==> Candidate(pattern, i, len)
      invariant steps + len + 2 <= 2 * i && (i <= m || steps == 0)
      decreases 2 * m - 2 * i + len
    {
      steps := steps + 1;
      if pattern[i] == pattern[len] {
        Extend(pattern, lps, i, len);
        len := len + 1;
        lps := lps[i := len];
        i := i + 1;
      } else if len != 0 {
        Shorten(pattern, lps, i, len);
        len := lps[len - 1];
      } else {
        NoBorder(pattern, lps, i);
        lps := lps[i := 0];
        i := i + 1;
      }
    }
  }

  // ----- Search -----

  ghost predicate OccursAt(text: string, pattern: string, p: int) {
    0 <= p && p + |pattern| <= |text| && text[p..p + |pattern|] == pattern
  }

  /** matches lists the occurrences that start before bound, in order. */
  ghost predicate Listed(text: string, pattern: string, bound: int, matches: seq<int>) {
    && (forall p {:trigger OccursAt(text, pattern, p)} :: p in matches <==> p < bound && OccursAt(text, pattern, p))
    && (forall x, y :: 0 <= x < y < |matches| ==> matches[x] < matches[y])
  }

  lemma ListMatch(text: string, pattern: string, bound: int, matches: seq<int>)
    requires Listed(text, pattern, bound, matches) && OccursAt(text, pattern, bound)
    ensures Listed(text, pattern, bound + 1, matches + [bound])
  {
    forall x | 0 <= x < |matches| ensures matches[x] < bound {
      assert matches[x] in matches;
      assert OccursAt(text, pattern, matches[x]);
    }
    forall p ensures p in matches + [bound] <==> p < bound + 1 && OccursAt(text, pattern, p) {
      assert p in matches + [bound] <==> p in matches || p == bound;
      assert p in matches <==> p < bound && OccursAt(text, pattern, p);
    }
  }

  /** The j characters before position i match the first j of the pattern. */
  ghost predicate Aligned(text: string, pattern: string, i: int, j: int) {
    0 <= j <= |pattern| && j <= i <= |text| && text[i - j..i] == pattern[..j]
  }

  /** Falling back from j to its longest border keeps the alignment and skips no occurrence. */
  lemma FallBack(text: string, pattern: string, i: nat, j: nat, shorter: nat, matches: seq<int>)
    requires Aligned(text, pattern, i, j) && 0 < j && LongestBorder(pattern, j, shorter)
    requires Listed(text, pattern, i - j + 1, matches)
    ensures Aligned(text, pattern, i, shorter) && Listed(text, pattern, i - shorter, matches)
  {
    assert text[i - shorter..i] == text[i - j..i][j - shorter..];
    assert pattern[j - shorter..j] == pattern[..j][j - shorter..];
    forall p | i - j < p < i - shorter ensures !OccursAt(text, pattern, p) {
      if OccursAt(text, pattern, p) {
        var k := i - p;
        assert pattern[..k] == text[p..p + |pattern|][..k] == text[p..i];
        assert text[p..i] == text[i - j..i][j - k..] == pattern[..j][j - k..];
        assert Border(pattern, j, k);
      }
    }
  }

  /** The next text character either extends the alignment or rules its position out. */
  lemma Compare(text: string, pattern: string, i: nat, j: nat, matches: seq<int>)
    requires j < |pattern| && i < |text| && Aligned(text, pattern, i, j)
    requires Listed(text, pattern, i - j, matches)
    ensures text[i] == pattern[j] ==> Aligned(text, pattern, i + 1, j + 1)
    ensures text[i] != pattern[j] ==> Listed(text, pattern, i - j + 1, matches)
  {
    assert text[i - j..i + 1] == text[i - j..i] + [text[i]];
    assert pattern[..j + 1] == pattern[..j] + [pattern[j]];
    if OccursAt(text, pattern, i - j) {
      assert text[i - j..i - j + |pattern|][j] == pattern[j];
    }
  }

  /** j characters match up to position i, and all occurrences that start before them are listed. */
  ghost predicate Searching(text: string, pattern: string, i: int, j: int, matches: seq<int>) {
    Aligned(text, pattern, i, j) && Listed(text, pattern, i - j, matches)
  }

  lemma Advance(text: string, pattern: string, i: nat, j: nat, matches: seq<int>)
    requires j < |pattern| && i < |text| && text[i] == pattern[j]
    ensures Searching(text, pattern, i, j, matches) ==> Searching(text, pattern, i + 1, j + 1, matches)
  {
    if Searching(text, pattern, i, j, matches) { Compare(text, pattern, i, j, matches); }
  }

  lemma Found(text: string, pattern: string, lps: seq<int>, i: nat, matches: seq<int>)
    requires |lps| == |pattern| > 0
    ensures var m := |pattern|;
            PrefixTable(pattern, lps) && Searching(text, pattern, i, m, matches)
            ==> 0 <= lps[m - 1] < m && Searching(text, pattern, i, lps[m - 1], matches + [i - m])
  {
    var m := |pattern|;
    if PrefixTable(pattern, lps) && Searching(text, pattern, i, m, matches) {
      assert TableAt(pattern, lps, m - 1);
      assert OccursAt(text, pattern, i - m);
      ListMatch(text, pattern, i - m, matches);
      FallBack(text, pattern, i, m, lps[m - 1], matches + [i - m]);
    }
  }

  lemma Mismatch(text: string, pattern: string, lps: seq<int>, i: nat, j: nat, matches: seq<int>)
    requires |lps| == |pattern| > j && i < |text| && text[i] != pattern[j]
    ensures PrefixTable(pattern, lps) && Searching(text, pattern, i, j, matches) ==>
              if j == 0 then Searching(text, pattern, i + 1, 0, matches)
              else 0 <= lps[j - 1] < j && Searching(text, pattern, i, lps[j - 1], matches)
  {
    if PrefixTable(pattern, lps) && Searching(text, pattern, i, j, matches) {
      Compare(text, pattern, i, j, matches);
      if j > 0 {
        assert TableAt(pattern, lps, j - 1);
        FallBack(text, pattern, i, j, lps[j - 1], matches);
      }
    }
  }

  /** matches lists the occurrences of the pattern, in ascending order. */
  ghost predicate AllMatches(text: string, pattern: string, matches: seq<int>) {
    && (forall p {:trigger OccursAt(text, pattern, p)} :: p in matches <==> OccursAt(text, pattern, p))
    && (forall x, y :: 0 <= x < y < |matches| ==> matches[x] < matches[y])
  }

  /** At the end of the text no occurrence can start later. */
  lemma SearchEnds(text: string, pattern: string, j: int, matches: seq<int>)
    requires j < |pattern|
    ensures Searching(text, pattern, |text|, j, matches) ==> AllMatches(text, pattern, matches)
  {
  }

  /** steps counts iterations of the search loop. */
  method KmpSearch(text: string, pattern: string) returns (matches: seq<int>, ghost steps: nat)
    ensures |pattern| == 0 ==> matches == []
    ensures |pattern| > 0 ==> AllMatches(text, pattern, matches)
    ensures steps <= 2 * |text|
  {
    var n, m := |text|, |pattern|;
    steps := 0;
    if m == 0 { return [], 0; }
    if m > n { return [], 0; }
    var lps, _ := BuildPrefixTable(pattern);
    matches := [];
    var i, j := 0, 0;
    while i < n
      invariant 0 <= j < m && j <= i <= n && Searching(text, pattern, i, j, matches)
      invariant steps + j <= 2 * i
      decreases 2 * n - 2 * i + j
    {
      steps := steps + 1;
      if text[i] == pattern[j] {
        Advance(text, pattern, i, j, matches);
        i := i + 1;
        j := j + 1;
      }
      if j == m {
        Found(text, pattern, lps, i, matches);
        matches := matches + [i - j];
        j := lps[j - 1];
      } else if i < n && text[i] != pattern[j] {
        Mismatch(text, pattern, lps, i, j, matches);
        if j != 0 {
          j := lps[j - 1];
        } else {
          i := i + 1;
        }
      }
    }
    SearchEnds(text, pattern, j, matches);
  }

  // ----- Periods -----

  function Repeat(t: string, k: nat): string {
    if k == 0 then "" else t + Repeat(t, k - 1)
  }

  /** s is its first p characters, written |s| / p times. */
  ghost predicate RepeatsEvery(s: string, p: int) {
    1 <= p <= |s| && |s| % p == 0 && s == Repeat(s[..p], |s| / p)
  }

  /** Shifting s by p leaves the overlap unchanged. */
  ghost predicate Period(s: string, p: int) {
    1 <= p <= |s| && s[..|s| - p] == s[p..]
  }

  lemma Peel(s: string, p: nat, k: nat)
    requires 1 <= p && 2 <= k && |s| == k * p
    ensures 2 * p <= |s| && |s[p..]| == (k - 1) * p
  {
    assert k * p == (k - 1) * p + p;
    assert (k - 1) * p >= p;
  }

  lemma {:induction false} PeriodRepeats(s: string, p: nat, k: nat)
    requires 1 <= p && 1 <= k && |s| == k * p && Period(s, p)
    ensures s == Repeat(s[..p], k)
    decreases k
  {
    var u, rest := s[..p], s[p..];
    assert s == u + rest;
    if k == 1 {
      assert rest == Repeat(u, 0);
    } else {
      Peel(s, p, k);
      assert rest[..p] == s[..|s| - p][..p] == u;
      assert rest[..|rest| - p] == s[..|s| - p][p..] == s[p..][p..] == rest[p..];
      PeriodRepeats(rest, p, k - 1);
    }
  }

  lemma {:induction false} RepeatsArePeriod(s: string, u: string, k: nat)
    requires 1 <= |u| && 1 <= k && |s| == k * |u| && s == Repeat(u, k)
    ensures s[..|u|] == u && Period(s, |u|)
    decreases k
  {
    var p, rest := |u|, s[|u|..];
    assert s == u + Repeat(u, k - 1);
    assert rest == Repeat(u, k - 1);
    if k == 1 {
      assert s[..|s| - p] == s[p..];
    } else {
      Peel(s, p, k);
      RepeatsArePeriod(rest, u, k - 1);
      assert s[..|s| - p] == u + rest[..|rest| - p];
      assert rest == u + rest[p..];
    }
  }

  /** The periodicity argument: the difference of two short periods is a period. */
  lemma PeriodDifference(s: string, p: int, q: int)
    requires Period(s, p) && Period(s, q) && q < p && p + q <= |s|
    ensures Period(s, p - q)
  {
    var n, d := |s|, p - q;
    forall i | 0 <= i < n - d ensures s[..n - d][i] == s[d..][i] {
      if i + p < n {
        assert s[..n - p][i] == s[p..][i];
        assert s[..n - q][i + d] == s[q..][i + d];
      } else {
        assert s[..n - q][i - q] == s[q..][i - q];
        assert s[..n - p][i - q] == s[p..][i - q];
      }
    }
  }

  /** Fine and Wilf, for the least period q: every period that leaves room for q is a
      multiple of it. */
  lemma {:induction false} LeastPeriodDivides(s: string, p: int, q: int) returns (k: nat)
    requires Period(s, p) && Period(s, q) && p + q <= |s|
    requires forall r :: Period(s, r) ==> q <= r
    ensures p == k * q
    decreases p
  {
    if p > q {
      PeriodDifference(s, p, q);
      k := LeastPeriodDivides(s, p - q, q);
      k := k + 1;
    } else {
      k := 1;
    }
  }

  lemma BorderIsPeriod(s: string, p: int)
    requires 1 <= p <= |s|
    ensures Period(s, p) <==> Border(s, |s|, |s| - p)
  {
    assert s[p..|s|] == s[p..];
  }

  /** A divisor of the length is a repeating period exactly when it is a period. */
  lemma DivisorPeriod(s: string, p: int)
    requires 1 <= p <= |s| && |s| % p == 0
    ensures RepeatsEvery(s, p) <==> Period(s, p)
  {
    var k := |s| / p;
    assert |s| == k * p;
    assert k <= 0 ==> k * p <= 0;
    if Period(s, p) { PeriodRepeats(s, p, k); }
    if RepeatsEvery(s, p) { RepeatsArePeriod(s, s[..p], k); }
  }

  method ShortestPeriod(s: string) returns (r: int)
    requires |s| > 0
    ensures RepeatsEvery(s, r)
    ensures forall p :: RepeatsEvery(s, p) ==> r <= p
  {
    var lps, _ := BuildPrefixTable(s);
    var n := |s|;
    var period := n - lps[n - 1];
    assert TableAt(s, lps, n - 1);
    forall p | Period(s, p) ensures period <= p {
      BorderIsPeriod(s, p);
    }
    BorderIsPeriod(s, period);
    forall p | RepeatsEvery(s, p) ensures Period(s, p) {
      DivisorPeriod(s, p);
    }
    if n % period == 0 {
      DivisorPeriod(s, period);
      return period;
    }
    forall p | RepeatsEvery(s, p) ensures n <= p {
      if p < n {
        ProperDivisor(n, p);
        var k := LeastPeriodDivides(s, p, period);
        DivisorChain(n, p, k, period);
      }
    }
    assert s[..0] == s[n..];
    DivisorPeriod(s, n);
    return n;
  }

  lemma ProperDivisor(n: int, p: int)
    requires 1 <= p < n && n % p == 0
    ensures 2 * p <= n
  {
    var k := n / p;
    assert n == k * p;
    assert k <= 1 ==> k * p <= p;
    assert k * p >= 2 * p;
  }

  lemma DivisorChain(n: int, p: int, k: int, q: int)
    requires 1 <= q && 1 <= p && n % p == 0 && p == k * q
    ensures n % q == 0
  {
    var c := n / p;
    assert n == c * p == (c * k) * q;
    var d := c * k - n / q;
    assert n % q == d * q;
    assert d >= 1 ==> d * q >= q;
    assert d <= -1 ==> d * q <= -q;
  }
}
