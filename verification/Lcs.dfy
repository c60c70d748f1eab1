/** Longest common subsequence: table, backtrack, and the two-row form. */
module Lcs {
  import opened Sequences

  // ----- Specification -----

  /** f places the characters of c at increasing positions of a, all at or after `from`. */
  ghost predicate Embeds(c: string, a: string, from: int, f: seq<int>) {
    && |f| == |c|
    && (forall k :: 0 <= k < |f| ==> from <= f[k] && 0 <= f[k] < |a| && a[f[k]] == c[k])
    && (forall k, l :: 0 <= k < l < |f| ==> f[k] < f[l])
  }

  ghost predicate IsSubsequenceFrom(c: string, a: string, from: int) {
    exists f :: Embeds(c, a, from, f)
  }

  ghost predicate IsSubsequence(c: string, a: string) {
    IsSubsequenceFrom(c, a, 0)
  }

  ghost predicate IsCommon(c: string, a: string, b: string) {
    IsSubsequence(c, a) && IsSubsequence(c, b)
  }

  /** c is a common subsequence and none is longer. */
  ghost predicate IsLongestCommon(c: string, a: string, b: string) {
    IsCommon(c, a, b) && forall d :: IsCommon(d, a, b) ==> |d| <= |c|
  }

  // ----- The recurrence of the table -----

  ghost function Length(a: string, b: string): nat
    decreases |a| + |b|
  {
    if a == [] || b == [] then 0
    else
      var a', b' := a[..|a| - 1], b[..|b| - 1];
      if a[|a| - 1] == b[|b| - 1] then Length(a', b') + 1
      else if Length(a', b) > Length(a, b') then Length(a', b) else Length(a, b')
  }

  lemma DropLast(c: string, a: string, f: seq<int>)
    requires c != [] && Embeds(c, a, 0, f) && a != []
    ensures Embeds(c[..|c| - 1], a[..|a| - 1], 0, f[..|f| - 1])
  {
    var last := f[|f| - 1];
    assert forall k :: 0 <= k < |f| - 1 ==> f[k] < last;
  }

  lemma Avoids(c: string, a: string, f: seq<int>)
    requires c != [] && Embeds(c, a, 0, f) && f[|f| - 1] < |a| - 1
    ensures Embeds(c, a[..|a| - 1], 0, f)
  {
    forall k | 0 <= k < |f| ensures f[k] < |a| - 1 {
      if k < |f| - 1 { assert f[k] < f[|f| - 1]; }
    }
  }

  /** No common subsequence is longer than the recurrence says. */
  lemma {:induction false} LengthBounds(c: string, a: string, b: string, f: seq<int>, g: seq<int>)
    requires Embeds(c, a, 0, f) && Embeds(c, b, 0, g)
    ensures |c| <= Length(a, b)
    decreases |a| + |b|
  {
    if c != [] {
      assert 0 <= f[|f| - 1] < |a| && 0 <= g[|g| - 1] < |b|;
      var a', b' := a[..|a| - 1], b[..|b| - 1];
      if a[|a| - 1] == b[|b| - 1] {
        DropLast(c, a, f);
        DropLast(c, b, g);
        LengthBounds(c[..|c| - 1], a', b', f[..|f| - 1], g[..|g| - 1]);
      } else if f[|f| - 1] < |a| - 1 {
        Avoids(c, a, f);
        LengthBounds(c, a', b, f, g);
      } else {
        Avoids(c, b, g);
        LengthBounds(c, a, b', f, g);
      }
    }
  }

  lemma CommonIsLongest(c: string, a: string, b: string)
    requires IsCommon(c, a, b) && |c| == Length(a, b)
    ensures IsLongestCommon(c, a, b)
  {
    forall d | IsCommon(d, a, b) ensures |d| <= |c| {
      var f :| Embeds(d, a, 0, f);
      var g :| Embeds(d, b, 0, g);
      LengthBounds(d, a, b, f, g);
    }
  }

  lemma {:induction false} Attained(a: string, b: string) returns (c: string, f: seq<int>, g: seq<int>)
    ensures Embeds(c, a, 0, f) && Embeds(c, b, 0, g) && |c| == Length(a, b)
    decreases |a| + |b|
  {
    if a == [] || b == [] {
      c, f, g := "", [], [];
    } else {
      var a', b' := a[..|a| - 1], b[..|b| - 1];
      if a[|a| - 1] == b[|b| - 1] {
        c, f, g := Attained(a', b');
        c, f, g := c + [a[|a| - 1]], f + [|a| - 1], g + [|b| - 1];
      } else if Length(a', b) > Length(a, b') {
        c, f, g := Attained(a', b);
      } else {
        c, f, g := Attained(a, b');
      }
    }
  }

  /** The recurrence gives the length of every longest common subsequence. */
  lemma LongestHasLength(a: string, b: string, c: string)
    requires IsLongestCommon(c, a, b)
    ensures |c| == Length(a, b)
  {
    var f :| Embeds(c, a, 0, f);
    var g :| Embeds(c, b, 0, g);
    LengthBounds(c, a, b, f, g);
    var d, f', g' := Attained(a, b);
    assert IsCommon(d, a, b);
  }

  /** The length does not depend on the order of the strings. */
  lemma {:induction false} Symmetric(a: string, b: string)
    ensures Length(a, b) == Length(b, a)
    decreases |a| + |b|
  {
    if a != [] && b != [] {
      var a', b' := a[..|a| - 1], b[..|b| - 1];
      Symmetric(a', b');
      Symmetric(a', b);
      Symmetric(a, b');
    }
  }

  ghost function L(a: string, b: string, i: int, j: int): nat
    requires 0 <= i <= |a| && 0 <= j <= |b|
  {
    Length(a[..i], b[..j])
  }

  lemma Cell(a: string, b: string, i: int, j: int)
    requires 0 <= i <= |a| && 0 <= j <= |b|
    ensures i == 0 || j == 0 ==> L(a, b, i, j) == 0
    ensures i > 0 && j > 0 ==>
      L(a, b, i, j) ==
        if a[i - 1] == b[j - 1] then L(a, b, i - 1, j - 1) + 1
        else if L(a, b, i - 1, j) > L(a, b, i, j - 1) then L(a, b, i - 1, j) else L(a, b, i, j - 1)
  {
    if i > 0 && j > 0 {
      assert a[..i][..i - 1] == a[..i - 1] && b[..j][..j - 1] == b[..j - 1];
    }
  }

  // ----- Full table with backtrack -----

  ghost predicate RowIs(a: string, b: string, row: seq<int>, i: int, n: int)
    requires 0 <= i <= |a| && 0 <= n <= |b| + 1
  {
    |row| == |b| + 1 && forall j :: 0 <= j < n ==> row[j] == L(a, b, i, j)
  }

  ghost predicate TableIs(a: string, b: string, dp: seq<seq<int>>, m: int)
    requires 0 <= m <= |a| + 1
  {
    |dp| == |a| + 1 && (forall i :: 0 <= i < |dp| ==> |dp[i]| == |b| + 1 && dp[i][0] == 0)
    && forall i :: 0 <= i < m ==> RowIs(a, b, dp[i], i, |b| + 1)
  }

  method FillTable(a: string, b: string) returns (dp: seq<seq<int>>)
    ensures TableIs(a, b, dp, |a| + 1)
  {
    var m, n := |a|, |b|;
    dp := seq(m + 1, _ => seq(n + 1, _ => 0));
    forall j | 0 <= j <= n ensures L(a, b, 0, j) == 0 { Cell(a, b, 0, j); }
    for i := 1 to m + 1
      invariant TableIs(a, b, dp, i)
    {
      Cell(a, b, i, 0);
      for j := 1 to n + 1
        invariant TableIs(a, b, dp, i) && RowIs(a, b, dp[i], i, j)
      {
        Cell(a, b, i, j);
        assert RowIs(a, b, dp[i - 1], i - 1, n + 1);
        var cell := if a[i - 1] == b[j - 1] then dp[i - 1][j - 1] + 1
                    else if dp[i - 1][j] > dp[i][j - 1] then dp[i - 1][j] else dp[i][j - 1];
        dp := dp[i := dp[i][j := cell]];
      }
    }
  }

  lemma Prepend(c: string, a: string, i: int)
    requires 0 <= i < |a| && IsSubsequenceFrom(c, a, i + 1)
    ensures IsSubsequenceFrom([a[i]] + c, a, i)
  {
    var f :| Embeds(c, a, i + 1, f);
    assert Embeds([a[i]] + c, a, i, [i] + f);
  }

  lemma Weaken(c: string, a: string, i: int, j: int)
    requires j <= i && IsSubsequenceFrom(c, a, i)
    ensures IsSubsequenceFrom(c, a, j)
  {
    var f :| Embeds(c, a, i, f);
    assert Embeds(c, a, j, f);
  }

  /** What the backtrack has collected lies beyond (i, j), and what is missing is before. */
  ghost predicate Collected(a: string, b: string, result: string, i: int, j: int)
    requires 0 <= i <= |a| && 0 <= j <= |b|
  {
    && IsSubsequenceFrom(Reversed(result), a, i) && IsSubsequenceFrom(Reversed(result), b, j)
    && |result| + L(a, b, i, j) == Length(a, b)
  }

  lemma TakeCommon(a: string, b: string, result: string, i: int, j: int)
    requires 0 < i <= |a| && 0 < j <= |b| && a[i - 1] == b[j - 1] && Collected(a, b, result, i, j)
    ensures Collected(a, b, result + [a[i - 1]], i - 1, j - 1)
  {
    Cell(a, b, i, j);
    ReversedPush(result, a[i - 1]);
    Prepend(Reversed(result), a, i - 1);
    Prepend(Reversed(result), b, j - 1);
  }

  lemma Step(a: string, b: string, result: string, i: int, j: int)
    requires 0 < i <= |a| && 0 < j <= |b| && a[i - 1] != b[j - 1] && Collected(a, b, result, i, j)
    ensures if L(a, b, i - 1, j) > L(a, b, i, j - 1) then Collected(a, b, result, i - 1, j)
            else Collected(a, b, result, i, j - 1)
  {
    Cell(a, b, i, j);
    Weaken(Reversed(result), a, i, i - 1);
    Weaken(Reversed(result), b, j, j - 1);
  }

  method LcsWithSequence(a: string, b: string) returns (c: string)
    ensures IsLongestCommon(c, a, b)
    ensures |c| == Length(a, b)
  {
    var dp := FillTable(a, b);
    var result := "";
    var i, j := |a|, |b|;
    assert a[..|a|] == a && b[..|b|] == b;
    assert Embeds("", a, i, []) && Embeds("", b, j, []) && Reversed(result) == "";
    while i > 0 && j > 0
      invariant 0 <= i <= |a| && 0 <= j <= |b| && Collected(a, b, result, i, j)
    {
      assert RowIs(a, b, dp[i - 1], i - 1, |b| + 1) && RowIs(a, b, dp[i], i, |b| + 1);
      if a[i - 1] == b[j - 1] {
        TakeCommon(a, b, result, i, j);
        result := result + [a[i - 1]];
        i, j := i - 1, j - 1;
      } else {
        Step(a, b, result, i, j);
        if dp[i - 1][j] > dp[i][j - 1] {
          i := i - 1;
        } else {
          j := j - 1;
        }
      }
    }
    Cell(a, b, i, j);
    c := Reversed(result);
    Weaken(c, a, i, 0);
    Weaken(c, b, j, 0);
    CommonIsLongest(c, a, b);
  }

  // ----- Two rows -----

  /** The row loop, b being the string the rows run along. */
  method LastRow(a: string, b: string) returns (prev: seq<int>)
    ensures |prev| == |b| + 1 && prev[|b|] == Length(a, b)
  {
    var n := |b|;
    prev := seq(n + 1, _ => 0);
    var curr: seq<int> := seq(n + 1, _ => 0);
    forall j | 0 <= j <= n ensures L(a, b, 0, j) == 0 { Cell(a, b, 0, j); }
    for k := 0 to |a|
      invariant RowIs(a, b, prev, k, n + 1) && curr == seq(n + 1, _ => 0)
    {
      Cell(a, b, k + 1, 0);
      for j := 1 to n + 1
        invariant RowIs(a, b, curr, k + 1, j)
      {
        Cell(a, b, k + 1, j);
        if a[k] == b[j - 1] {
          curr := curr[j := prev[j - 1] + 1];
        } else {
          curr := curr[j := if prev[j] > curr[j - 1] then prev[j] else curr[j - 1]];
        }
      }
      prev, curr := curr, prev;
      curr := seq(n + 1, _ => 0);
    }
    assert a[..|a|] == a && b[..n] == b;
  }

  method LcsLength(first: string, second: string) returns (r: int)
    ensures r == Length(first, second)
    ensures forall c :: IsLongestCommon(c, first, second) ==> |c| == r
  {
    forall c | IsLongestCommon(c, first, second) ensures |c| == Length(first, second) {
      LongestHasLength(first, second, c);
    }
    var a, b := first, second;
    Symmetric(a, b);
    if |a| < |b| { a, b := b, a; }
    var row := LastRow(a, b);
    return row[|b|];
  }
}
