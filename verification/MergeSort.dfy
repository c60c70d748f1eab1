/** Stable merge sort with inversion counting. */
module MergeSort {
  import Halving

  /** An array element: the key it is ordered by, and a tag that tells equal keys apart. */
  datatype Elem = Elem(key: int, tag: int)

  predicate Le(x: Elem, y: Elem) {
    x.key <= y.key
  }

  // ----- Specification -----

  ghost predicate Sorted(s: seq<Elem>) {
    forall i, j :: 0 <= i < j < |s| ==> Le(s[i], s[j])
  }

  /** The elements of s with key k, in their order in s. */
  ghost function Class(k: int, s: seq<Elem>): seq<Elem> {
    if s == [] then [] else (if s[0].key == k then [s[0]] else []) + Class(k, s[1..])
  }

  /** r is s in ascending order, equal elements kept in their original order. */
  ghost predicate IsStableSort(s: seq<Elem>, r: seq<Elem>) {
    Sorted(r) && multiset(r) == multiset(s) && forall k :: Class(k, r) == Class(k, s)
  }

  /** Number of positions in s with a key below k. */
  ghost function Smaller(k: int, s: seq<Elem>): nat {
    if s == [] then 0 else (if s[0].key < k then 1 else 0) + Smaller(k, s[1..])
  }

  /** Pairs taken one from a and one from b, the one from a larger. */
  ghost function Cross(a: seq<Elem>, b: seq<Elem>): nat {
    if a == [] then 0 else Smaller(a[0].key, b) + Cross(a[1..], b)
  }

  /** Pairs i < j with s[i] larger than s[j]. */
  ghost function Inversions(s: seq<Elem>): nat {
    if s == [] then 0 else Smaller(s[0].key, s[1..]) + Inversions(s[1..])
  }

  lemma MultisetTail<T>(s: seq<T>)
    requires s != []
    ensures multiset(s[1..]) == multiset(s) - multiset{s[0]}
  {
    assert s == [s[0]] + s[1..];
  }

  lemma SameHead(r: seq<Elem>, r': seq<Elem>)
    requires Sorted(r) && Sorted(r') && r != [] && r' != []
    requires multiset(r) == multiset(r') && Class(r[0].key, r) == Class(r[0].key, r')
    ensures r[0] == r'[0]
  {
    var x, y := r[0], r'[0];
    assert x in multiset(r') && y in multiset(r);
    assert Le(x, y) && Le(y, x);
    assert Class(x.key, r)[0] == x && Class(x.key, r')[0] == y;
  }

  /** A sequence has only one stable sort. */
  lemma {:induction false} StableSortUnique(r: seq<Elem>, r': seq<Elem>)
    requires Sorted(r) && Sorted(r')
    requires multiset(r) == multiset(r') && forall k :: Class(k, r) == Class(k, r')
    ensures r == r'
    decreases |r|
  {
    assert |r| == |multiset(r)| && |r'| == |multiset(r')|;
    if r != [] {
      SameHead(r, r');
      forall k ensures Class(k, r[1..]) == Class(k, r'[1..]) {
        var mine := if r[0].key == k then [r[0]] else [];
        assert Class(k, r) == Class(k, r');
        assert Class(k, r[1..]) == (mine + Class(k, r[1..]))[|mine|..];
        assert Class(k, r'[1..]) == (mine + Class(k, r'[1..]))[|mine|..];
      }
      MultisetTail(r);
      MultisetTail(r');
      StableSortUnique(r[1..], r'[1..]);
      assert r == [r[0]] + r[1..] && r' == [r'[0]] + r'[1..];
    }
  }

  // ----- Merging -----

  ghost function Merge(a: seq<Elem>, b: seq<Elem>): seq<Elem>
    decreases |a| + |b|
  {
    if a == [] then b
    else if b == [] then a
    else if Le(a[0], b[0]) then [a[0]] + Merge(a[1..], b)
    else [b[0]] + Merge(a, b[1..])
  }

  /** What the merge loop counts: all that is left of a, each time b's head goes first. */
  ghost function Overtaken(a: seq<Elem>, b: seq<Elem>): nat
    decreases |a| + |b|
  {
    if a == [] || b == [] then 0
    else if Le(a[0], b[0]) then Overtaken(a[1..], b)
    else |a| + Overtaken(a, b[1..])
  }

  lemma Associate<T>(a: seq<T>, b: seq<T>, c: seq<T>)
    ensures a + (b + c) == a + b + c
  {
  }

  lemma {:induction false} ClassAppend(k: int, a: seq<Elem>, b: seq<Elem>)
    ensures Class(k, a + b) == Class(k, a) + Class(k, b)
  {
    if a == [] {
      assert a + b == b;
    } else {
      assert (a + b)[1..] == a[1..] + b;
      ClassAppend(k, a[1..], b);
      Associate(if a[0].key == k then [a[0]] else [], Class(k, a[1..]), Class(k, b));
    }
  }

  lemma {:induction false} NoneEqual(k: int, s: seq<Elem>)
    requires forall i :: 0 <= i < |s| ==> s[i].key != k
    ensures Class(k, s) == []
  {
    if s != [] { NoneEqual(k, s[1..]); }
  }

  lemma {:induction false} MergeMembers(a: seq<Elem>, b: seq<Elem>)
    ensures multiset(Merge(a, b)) == multiset(a) + multiset(b)
    decreases |a| + |b|
  {
    if a != [] && b != [] {
      assert a == [a[0]] + a[1..] && b == [b[0]] + b[1..];
      if Le(a[0], b[0]) { MergeMembers(a[1..], b); } else { MergeMembers(a, b[1..]); }
    }
  }

  lemma {:induction false} MergeSorted(a: seq<Elem>, b: seq<Elem>)
    requires Sorted(a) && Sorted(b)
    ensures Sorted(Merge(a, b))
    decreases |a| + |b|
  {
    if a != [] && b != [] {
      var first := Le(a[0], b[0]);
      var head := if first then a[0] else b[0];
      var a', b' := if first then a[1..] else a, if first then b else b[1..];
      MergeSorted(a', b');
      MergeMembers(a', b');
      var rest := Merge(a', b');
      forall k | 0 <= k < |rest| ensures Le(head, rest[k]) {
        assert rest[k] in multiset(rest);
        assert rest[k] in a' || rest[k] in b';
      }
    }
  }

  /** Merging keeps equal elements in order, those of a first. */
  lemma {:induction false} MergeStable(a: seq<Elem>, b: seq<Elem>, k: int)
    requires Sorted(a)
    ensures Class(k, Merge(a, b)) == Class(k, a) + Class(k, b)
    decreases |a| + |b|
  {
    if a != [] && b != [] {
      if Le(a[0], b[0]) {
        MergeStable(a[1..], b, k);
        assert Merge(a, b)[1..] == Merge(a[1..], b);
      } else {
        MergeStable(a, b[1..], k);
        assert Merge(a, b)[1..] == Merge(a, b[1..]);
        if b[0].key == k { NoneEqual(k, a); }
      }
    }
  }

  // ----- Counting -----

  lemma {:induction false} SmallerAppend(k: int, a: seq<Elem>, b: seq<Elem>)
    ensures Smaller(k, a + b) == Smaller(k, a) + Smaller(k, b)
  {
    if a == [] {
      assert a + b == b;
    } else {
      assert (a + b)[1..] == a[1..] + b;
      SmallerAppend(k, a[1..], b);
    }
  }

  lemma {:induction false} InversionsAppend(a: seq<Elem>, b: seq<Elem>)
    ensures Inversions(a + b) == Inversions(a) + Inversions(b) + Cross(a, b)
  {
    if a == [] {
      assert a + b == b;
    } else {
      assert (a + b)[1..] == a[1..] + b;
      InversionsAppend(a[1..], b);
      SmallerAppend(a[0].key, a[1..], b);
    }
  }

  lemma {:induction false} CrossAppend(a: seq<Elem>, a': seq<Elem>, b: seq<Elem>)
    ensures Cross(a + a', b) == Cross(a, b) + Cross(a', b)
  {
    if a == [] {
      assert a + a' == a';
    } else {
      assert (a + a')[1..] == a[1..] + a';
      CrossAppend(a[1..], a', b);
    }
  }

  lemma Pull(s: seq<Elem>, t: seq<Elem>) returns (k: nat)
    requires s != [] && multiset(s) == multiset(t)
    ensures k < |t| && t[k] == s[0] && t == t[..k] + [t[k]] + t[k + 1..]
    ensures multiset(s[1..]) == multiset(t[..k] + t[k + 1..])
  {
    MultisetTail(s);
    assert s[0] in multiset(t);
    k :| 0 <= k < |t| && t[k] == s[0];
    assert t == t[..k] + [t[k]] + t[k + 1..];
    assert multiset(t) == multiset(t[..k]) + multiset{t[k]} + multiset(t[k + 1..]);
  }

  lemma {:induction false} SmallerPermuted(k: int, s: seq<Elem>, t: seq<Elem>)
    requires multiset(s) == multiset(t)
    ensures Smaller(k, s) == Smaller(k, t)
    decreases |s|
  {
    if s == [] {
      assert |t| == |multiset(t)| == 0;
    } else {
      var i := Pull(s, t);
      SmallerPermuted(k, s[1..], t[..i] + t[i + 1..]);
      SmallerAppend(k, t[..i] + [t[i]], t[i + 1..]);
      SmallerAppend(k, t[..i], [t[i]]);
      SmallerAppend(k, t[..i], t[i + 1..]);
    }
  }

  lemma {:induction false} CrossPermutedRight(a: seq<Elem>, b: seq<Elem>, b': seq<Elem>)
    requires multiset(b) == multiset(b')
    ensures Cross(a, b) == Cross(a, b')
  {
    if a != [] {
      SmallerPermuted(a[0].key, b, b');
      CrossPermutedRight(a[1..], b, b');
    }
  }

  lemma {:induction false} CrossPermutedLeft(a: seq<Elem>, a': seq<Elem>, b: seq<Elem>)
    requires multiset(a) == multiset(a')
    ensures Cross(a, b) == Cross(a', b)
    decreases |a|
  {
    if a == [] {
      assert |a'| == |multiset(a')| == 0;
    } else {
      var k := Pull(a, a');
      CrossPermutedLeft(a[1..], a'[..k] + a'[k + 1..], b);
      CrossAppend(a'[..k] + [a'[k]], a'[k + 1..], b);
      CrossAppend(a'[..k], [a'[k]], b);
      CrossAppend(a'[..k], a'[k + 1..], b);
    }
  }

  /** Taking b's head first: everything left of a is larger than it. */
  lemma {:induction false} CrossHead(a: seq<Elem>, b: seq<Elem>)
    requires b != [] && forall i :: 0 <= i < |a| ==> !Le(a[i], b[0])
    ensures Cross(a, b) == |a| + Cross(a, b[1..])
  {
    if a != [] { CrossHead(a[1..], b); }
  }

  lemma {:induction false} NoneSmaller(k: int, s: seq<Elem>)
    requires forall i :: 0 <= i < |s| ==> k <= s[i].key
    ensures Smaller(k, s) == 0
  {
    if s != [] { NoneSmaller(k, s[1..]); }
  }

  lemma {:induction false} CrossEmpty(a: seq<Elem>)
    ensures Cross(a, []) == 0
  {
    if a != [] { CrossEmpty(a[1..]); }
  }

  /** The merge loop counts exactly the pairs across two sorted runs. */
  lemma {:induction false} OvertakenIsCross(a: seq<Elem>, b: seq<Elem>)
    requires Sorted(a) && Sorted(b)
    ensures Overtaken(a, b) == Cross(a, b)
    decreases |a| + |b|
  {
    if b == [] {
      CrossEmpty(a);
    } else if a != [] {
      if Le(a[0], b[0]) {
        NoneSmaller(a[0].key, b);
        OvertakenIsCross(a[1..], b);
      } else {
        CrossHead(a, b);
        OvertakenIsCross(a, b[1..]);
      }
    }
  }

  /** Sorting the halves and merging counts the inversions of the whole. */
  lemma HalvesCount(a: seq<Elem>, b: seq<Elem>, a': seq<Elem>, b': seq<Elem>, whole: seq<Elem>, merged: seq<Elem>)
    requires IsStableSort(a, a') && IsStableSort(b, b')
    requires whole == a + b && merged == Merge(a', b')
    ensures Inversions(whole) == Inversions(a) + Inversions(b) + Overtaken(a', b')
    ensures IsStableSort(whole, merged)
  {
    InversionsAppend(a, b);
    CrossPermutedLeft(a, a', b);
    CrossPermutedRight(a', b, b');
    OvertakenIsCross(a', b');
    MergeSorted(a', b');
    MergeMembers(a', b');
    forall k ensures Class(k, Merge(a', b')) == Class(k, a + b) {
      MergeStable(a', b', k);
      ClassAppend(k, a, b);
    }
  }

  // ----- Inversions are pairs of positions -----

  ghost function EndingPairs(s: seq<Elem>, last: Elem, n: int): set<(int, int)> {
    set i | 0 <= i < |s| && last.key < s[i].key :: (i, n)
  }

  ghost function InversionPairs(s: seq<Elem>): set<(int, int)> {
    set i, j | 0 <= i < j < |s| && s[j].key < s[i].key :: (i, j)
  }

  lemma OneMorePair(rest: seq<Elem>, x: Elem, last: Elem, n: int)
    ensures (|rest|, n) !in EndingPairs(rest, last, n)
    ensures EndingPairs(rest + [x], last, n)
         == EndingPairs(rest, last, n) + if last.key < x.key then {(|rest|, n)} else {}
  {
  }

  lemma {:induction false} PairsWithLast(s: seq<Elem>, last: Elem, n: int)
    ensures |EndingPairs(s, last, n)| == Cross(s, [last])
    decreases |s|
  {
    if s == [] {
      assert EndingPairs(s, last, n) == {};
      assert Cross(s, [last]) == 0;
    } else {
      var rest, x := s[..|s| - 1], s[|s| - 1];
      PairsWithLast(rest, last, n);
      assert s == rest + [x];
      CrossAppend(rest, [x], [last]);
      assert Cross([x], [last]) == Smaller(x.key, [last]) == if last.key < x.key then 1 else 0;
      OneMorePair(rest, x, last, n);
    }
  }

  lemma PairsSplit(rest: seq<Elem>, last: Elem)
    ensures InversionPairs(rest + [last]) == InversionPairs(rest) + EndingPairs(rest, last, |rest|)
    ensures InversionPairs(rest) !! EndingPairs(rest, last, |rest|)
  {
    var s := rest + [last];
    forall p ensures p in InversionPairs(s) <==> p in InversionPairs(rest) || p in EndingPairs(rest, last, |rest|) {
      assert p == (p.0, p.1);
    }
  }

  /** Inversions counts the pairs of positions i < j that hold a larger key before a smaller. */
  lemma {:induction false} InversionsArePairs(s: seq<Elem>)
    ensures Inversions(s) == |InversionPairs(s)|
    decreases |s|
  {
    if s == [] {
      assert InversionPairs(s) == {};
    } else {
      var rest, last := s[..|s| - 1], s[|s| - 1];
      InversionsArePairs(rest);
      assert s == rest + [last];
      InversionsAppend(rest, [last]);
      assert Inversions([last]) == 0;
      PairsWithLast(rest, last, |rest|);
      PairsSplit(rest, last);
    }
  }

  // ----- The program -----

  /** t is s except on left..right, both ends included. */
  ghost predicate SameOutside<T>(s: seq<T>, t: seq<T>, left: int, right: int) {
    |s| == |t| && forall k :: 0 <= k < |s| && (k < left || right < k) ==> s[k] == t[k]
  }

  lemma SliceKept<T>(s: seq<T>, t: seq<T>, left: int, right: int, lo: int, hi: int)
    requires SameOutside(s, t, left, right) && 0 <= lo <= hi <= |s| && (hi <= left || right < lo)
    ensures s[lo..hi] == t[lo..hi]
  {
  }

  /** Merge of s[i..mid] and s[j..right], both ends included. */
  ghost function MergeFrom(s: seq<Elem>, i: int, mid: int, j: int, right: int): seq<Elem>
    requires 0 <= i <= mid + 1 <= j <= right + 1 <= |s|
    decreases mid - i + right - j
  {
    if i > mid then s[j..right + 1]
    else if j > right then s[i..mid + 1]
    else if Le(s[i], s[j]) then [s[i]] + MergeFrom(s, i + 1, mid, j, right)
    else [s[j]] + MergeFrom(s, i, mid, j + 1, right)
  }

  ghost function CountFrom(s: seq<Elem>, i: int, mid: int, j: int, right: int): nat
    requires 0 <= i <= mid + 1 <= j <= right + 1 <= |s|
    decreases mid - i + right - j
  {
    if i > mid || j > right then 0
    else if Le(s[i], s[j]) then CountFrom(s, i + 1, mid, j, right)
    else mid - i + 1 + CountFrom(s, i, mid, j + 1, right)
  }

  lemma {:induction false} FromLength(s: seq<Elem>, i: int, mid: int, j: int, right: int)
    requires 0 <= i <= mid + 1 <= j <= right + 1 <= |s|
    ensures |MergeFrom(s, i, mid, j, right)| == mid - i + 1 + right - j + 1
    decreases mid - i + right - j
  {
    if i <= mid && j <= right {
      if Le(s[i], s[j]) { FromLength(s, i + 1, mid, j, right); } else { FromLength(s, i, mid, j + 1, right); }
    }
  }

  lemma {:induction false} CountIsOvertaken(s: seq<Elem>, i: int, mid: int, j: int, right: int)
    requires 0 <= i <= mid + 1 <= j <= right + 1 <= |s|
    ensures CountFrom(s, i, mid, j, right) == Overtaken(s[i..mid + 1], s[j..right + 1])
    decreases mid - i + right - j
  {
    if i <= mid && j <= right {
      SliceHead(s, i, mid + 1);
      SliceHead(s, j, right + 1);
      if Le(s[i], s[j]) {
        CountIsOvertaken(s, i + 1, mid, j, right);
      } else {
        CountIsOvertaken(s, i, mid, j + 1, right);
      }
    }
  }

  lemma TakeLeft(a: seq<Elem>, b: seq<Elem>, x: Elem, a': seq<Elem>, rest: seq<Elem>)
    requires a != [] && b != [] && a[0] == x && a[1..] == a' && Le(x, b[0]) && rest == Merge(a', b)
    ensures Merge(a, b) == [x] + rest
  {
  }

  lemma TakeRight(a: seq<Elem>, b: seq<Elem>, y: Elem, b': seq<Elem>, rest: seq<Elem>)
    requires a != [] && b != [] && b[0] == y && b[1..] == b' && !Le(a[0], y) && rest == Merge(a, b')
    ensures Merge(a, b) == [y] + rest
  {
  }

  lemma {:induction false} FromIsMerge(s: seq<Elem>, i: int, mid: int, j: int, right: int)
    requires 0 <= i <= mid + 1 <= j <= right + 1 <= |s|
    ensures MergeFrom(s, i, mid, j, right) == Merge(s[i..mid + 1], s[j..right + 1])
    decreases mid - i + right - j
  {
    var a, b := s[i..mid + 1], s[j..right + 1];
    if i > mid {
      assert a == [];
    } else if j > right {
      assert b == [];
    } else {
      SliceHead(s, i, mid + 1);
      SliceHead(s, j, right + 1);
      if Le(s[i], s[j]) {
        FromIsMerge(s, i + 1, mid, j, right);
        TakeLeft(a, b, s[i], s[i + 1..mid + 1], MergeFrom(s, i + 1, mid, j, right));
      } else {
        FromIsMerge(s, i, mid, j + 1, right);
        TakeRight(a, b, s[j], s[j + 1..right + 1], MergeFrom(s, i, mid, j + 1, right));
      }
    }
  }

  lemma SliceHead<T>(s: seq<T>, i: int, n: int)
    requires 0 <= i < n <= |s|
    ensures s[i..n] != [] && s[i..n][0] == s[i] && s[i..n][1..] == s[i + 1..n]
  {
  }

  /** What one run has left goes to the end of temp. */
  method Drain<T>(temp0: seq<T>, s: seq<T>, first: int, last: int) returns (temp: seq<T>)
    requires 0 <= first <= last + 1 <= |s|
    ensures temp == temp0 + s[first..last + 1]
  {
    temp := temp0;
    for i := first to last + 1
      invariant temp == temp0 + s[first..i]
    {
      temp := temp + [s[i]];
    }
  }

  /** The merge and the count that result from temp and inversions and what is left of the runs. */
  ghost function Completed(s: seq<Elem>, i: int, mid: int, j: int, right: int, temp: seq<Elem>, inversions: int)
    : (seq<Elem>, int)
    requires 0 <= i <= mid + 1 <= j <= right + 1 <= |s|
  {
    (temp + MergeFrom(s, i, mid, j, right), inversions + CountFrom(s, i, mid, j, right))
  }

  ghost predicate Merging(s: seq<Elem>, left: int, mid: int, right: int, i: int, j: int, temp: seq<Elem>, inversions: int)
    requires 0 <= left <= i <= mid + 1 <= j <= right + 1 <= |s|
  {
    Completed(s, i, mid, j, right, temp, inversions) == Completed(s, left, mid, mid + 1, right, [], 0)
  }

  lemma MergeStep(s: seq<Elem>, left: int, mid: int, right: int, i: int, j: int, temp: seq<Elem>, inversions: int)
    requires 0 <= left <= i <= mid < j <= right < |s|
    ensures Merging(s, left, mid, right, i, j, temp, inversions) ==>
              if Le(s[i], s[j]) then Merging(s, left, mid, right, i + 1, j, temp + [s[i]], inversions)
              else Merging(s, left, mid, right, i, j + 1, temp + [s[j]], inversions + (mid - i + 1))
  {
    if Le(s[i], s[j]) {
      Associate(temp, [s[i]], MergeFrom(s, i + 1, mid, j, right));
    } else {
      Associate(temp, [s[j]], MergeFrom(s, i, mid, j + 1, right));
    }
  }

  lemma OneIsEmpty<T>(temp: seq<T>, a: seq<T>, b: seq<T>, rest: seq<T>)
    requires if a == [] then rest == b else b == [] && rest == a
    ensures temp + a + b == temp + rest
  {
  }

  lemma MergeEnd(s: seq<Elem>, left: int, mid: int, right: int, i: int, j: int, temp: seq<Elem>, inversions: int)
    requires 0 <= left <= i <= mid + 1 <= j <= right + 1 <= |s| && (i > mid || j > right)
    ensures Merging(s, left, mid, right, i, j, temp, inversions) ==>
              && temp + s[i..mid + 1] + s[j..right + 1] == MergeFrom(s, left, mid, mid + 1, right)
              && inversions == CountFrom(s, left, mid, mid + 1, right)
  {
    var rest, whole := MergeFrom(s, i, mid, j, right), MergeFrom(s, left, mid, mid + 1, right);
    OneIsEmpty(temp, s[i..mid + 1], s[j..right + 1], rest);
    OneIsEmpty([], [], whole, whole);
    assert Merging(s, left, mid, right, i, j, temp, inversions) ==> temp + rest == [] + whole;
  }

  /** The loop over both runs; it ends with one of them used up. */
  method MergeBoth(s: seq<Elem>, left: int, mid: int, right: int)
    returns (i: int, j: int, temp: seq<Elem>, inversions: nat)
    requires 0 <= left <= mid < right < |s|
    ensures left <= i <= mid + 1 <= j <= right + 1 && (i > mid || j > right)
    ensures Merging(s, left, mid, right, i, j, temp, inversions)
  {
    i, j := left, mid + 1;
    temp, inversions := [], 0;
    while i <= mid && j <= right
      invariant left <= i <= mid + 1 <= j <= right + 1
      invariant Merging(s, left, mid, right, i, j, temp, inversions)
    {
      MergeStep(s, left, mid, right, i, j, temp, inversions);
      if Le(s[i], s[j]) {
        temp := temp + [s[i]];
        i := i + 1;
      } else {
        inversions := inversions + (mid - i + 1);
        temp := temp + [s[j]];
        j := j + 1;
      }
    }
  }

  /** The three merge loops, over the array's contents s. */
  method MergeRuns(s: seq<Elem>, left: int, mid: int, right: int) returns (temp: seq<Elem>, inversions: nat)
    requires 0 <= left <= mid < right < |s|
    ensures temp == MergeFrom(s, left, mid, mid + 1, right)
    ensures inversions == CountFrom(s, left, mid, mid + 1, right)
  {
    var i, j;
    i, j, temp, inversions := MergeBoth(s, left, mid, right);
    MergeEnd(s, left, mid, right, i, j, temp, inversions);
    temp := Drain(temp, s, i, mid);
    temp := Drain(temp, s, j, right);
  }

  /** s2 is s0 with left..right stably sorted, and inversions counts that part of s0. */
  ghost predicate RangeSorted(s0: seq<Elem>, s2: seq<Elem>, left: int, right: int, inversions: int)
    requires 0 <= left <= right + 1 <= |s0|
  {
    && SameOutside(s0, s2, left, right)
    && IsStableSort(s0[left..right + 1], s2[left..right + 1])
    && inversions == Inversions(s0[left..right + 1])
  }

  ghost predicate RangeMerged(s2: seq<Elem>, s3: seq<Elem>, left: int, mid: int, right: int, inversions: int)
    requires 0 <= left <= mid < right < |s2|
  {
    && SameOutside(s2, s3, left, right)
    && s3[left..right + 1] == Merge(s2[left..mid + 1], s2[mid + 1..right + 1])
    && inversions == Overtaken(s2[left..mid + 1], s2[mid + 1..right + 1])
  }

  /** s with left..right replaced by the merge of its halves. */
  ghost function MergedRange(s: seq<Elem>, left: int, mid: int, right: int): (r: seq<Elem>)
    requires 0 <= left <= mid < right < |s|
    ensures |r| == |s|
  {
    FromLength(s, left, mid, mid + 1, right);
    s[..left] + MergeFrom(s, left, mid, mid + 1, right) + s[right + 1..]
  }

  lemma MergedRangeOk(s: seq<Elem>, left: int, mid: int, right: int)
    requires 0 <= left <= mid < right < |s|
    ensures RangeMerged(s, MergedRange(s, left, mid, right), left, mid, right, CountFrom(s, left, mid, mid + 1, right))
  {
    FromIsMerge(s, left, mid, mid + 1, right);
    FromLength(s, left, mid, mid + 1, right);
    CountIsOvertaken(s, left, mid, mid + 1, right);
    var merged, t := MergeFrom(s, left, mid, mid + 1, right), MergedRange(s, left, mid, right);
    assert t[left..right + 1] == merged;
  }

  lemma ShortRange(s: seq<Elem>, left: int, right: int)
    requires 0 <= left <= right + 1 <= |s| && left >= right
    ensures RangeSorted(s, s, left, right, 0)
  {
    if left == right { assert s[left..right + 1] == [s[left]]; }
  }

  lemma OutsideTwice<T>(s: seq<T>, t: seq<T>, u: seq<T>, left: int, right: int, left': int, right': int)
    requires SameOutside(s, t, left, right) && SameOutside(t, u, left', right')
    ensures forall lo, hi :: lo <= left && lo <= left' && right <= hi && right' <= hi ==> SameOutside(s, u, lo, hi)
  {
  }

  /** The halves as they stand before the merge. */
  lemma HalvesBefore(s0: seq<Elem>, s1: seq<Elem>, s2: seq<Elem>, left: int, mid: int, right: int)
    requires 0 <= left <= mid < right < |s0|
    requires SameOutside(s0, s1, left, mid) && SameOutside(s1, s2, mid + 1, right)
    ensures |s2| == |s1| == |s0| && SameOutside(s0, s2, left, right)
    ensures s1[mid + 1..right + 1] == s0[mid + 1..right + 1] && s2[left..mid + 1] == s1[left..mid + 1]
  {
    SliceKept(s0, s1, left, mid, mid + 1, right + 1);
    SliceKept(s1, s2, mid + 1, right, left, mid + 1);
    OutsideTwice(s0, s1, s2, left, mid, mid + 1, right);
  }

  lemma SortedHalvesMerge(s0: seq<Elem>, s1: seq<Elem>, s2: seq<Elem>, s3: seq<Elem>,
                          left: int, mid: int, right: int, x: int, y: int, z: int)
    requires 0 <= left <= mid < right < |s0| == |s1| == |s2|
    requires RangeSorted(s0, s1, left, mid, x) && RangeSorted(s1, s2, mid + 1, right, y)
    requires RangeMerged(s2, s3, left, mid, right, z)
    ensures |s3| == |s0| && SameOutside(s0, s3, left, right)
    ensures IsStableSort(s0[left..right + 1], s3[left..right + 1])
    ensures x + y + z == Inversions(s0[left..right + 1])
  {
    HalvesBefore(s0, s1, s2, left, mid, right);
    OutsideTwice(s0, s2, s3, left, right, left, right);
    var a, b := s0[left..mid + 1], s0[mid + 1..right + 1];
    Joined(s0, left, mid + 1, right + 1);
    HalvesCount(a, b, s2[left..mid + 1], s2[mid + 1..right + 1], s0[left..right + 1], s3[left..right + 1]);
  }

  lemma Joined<T>(s: seq<T>, lo: int, mid: int, hi: int)
    requires 0 <= lo <= mid <= hi <= |s|
    ensures s[lo..mid] + s[mid..hi] == s[lo..hi]
  {
  }

  /** Two sorted halves and their merge make a sorted range; the three counts add up. */
  lemma RangesCombine(s0: seq<Elem>, s1: seq<Elem>, s2: seq<Elem>, s3: seq<Elem>,
                      left: int, mid: int, right: int, x: int, y: int, z: int)
    requires 0 <= left <= mid < right < |s0| == |s1| == |s2|
    ensures RangeSorted(s0, s1, left, mid, x) && RangeSorted(s1, s2, mid + 1, right, y)
            && RangeMerged(s2, s3, left, mid, right, z)
            ==> RangeSorted(s0, s3, left, right, x + y + z)
  {
    if RangeSorted(s0, s1, left, mid, x) && RangeSorted(s1, s2, mid + 1, right, y)
       && RangeMerged(s2, s3, left, mid, right, z) {
      SortedHalvesMerge(s0, s1, s2, s3, left, mid, right, x, y, z);
    }
  }

  /** std::copy of temp into the array from position left on. */
  method CopyBack<T>(arr: array<T>, temp: seq<T>, left: int)
    requires 0 <= left <= left + |temp| <= arr.Length
    modifies arr
    ensures arr[..] == old(arr[..])[..left] + temp + old(arr[..])[left + |temp|..]
  {
    for k := 0 to |temp|
      invariant forall m :: 0 <= m < arr.Length ==>
                  arr[m] == if left <= m < left + k then temp[m - left] else old(arr[m])
    {
      arr[left + k] := temp[k];
    }
  }

  method MergeAndCount(arr: array<Elem>, left: int, mid: int, right: int) returns (inversions: nat)
    requires 0 <= left <= mid < right < arr.Length
    modifies arr
    ensures RangeMerged(old(arr[..]), arr[..], left, mid, right, inversions)
  {
    ghost var s := arr[..];
    var temp: seq<Elem>;
    temp, inversions := MergeRuns(arr[..], left, mid, right);
    FromLength(s, left, mid, mid + 1, right);
    CopyBack(arr, temp, left);
    MergedRangeOk(s, left, mid, right);
  }

  method MergeSortRange(arr: array<Elem>, left: int, right: int) returns (inversions: nat)
    requires 0 <= left <= right + 1 <= arr.Length
    modifies arr
    ensures RangeSorted(old(arr[..]), arr[..], left, right, inversions)
    decreases right - left
  {
    if left >= right {
      ShortRange(arr[..], left, right);
      return 0;
    }
    var mid := Halving.Midpoint(left, right);
    ghost var s0 := arr[..];
    var x := MergeSortRange(arr, left, mid);
    ghost var s1 := arr[..];
    var y := MergeSortRange(arr, mid + 1, right);
    ghost var s2 := arr[..];
    var z := MergeAndCount(arr, left, mid, right);
    RangesCombine(s0, s1, s2, arr[..], left, mid, right, x, y, z);
    inversions := x + y + z;
  }

  /** Sorts the whole array stably in place and returns its number of inversions. */
  method MergeSort(arr: array<Elem>) returns (inversions: nat)
    modifies arr
    ensures IsStableSort(old(arr[..]), arr[..])
    ensures inversions == Inversions(old(arr[..])) == |InversionPairs(old(arr[..]))|
  {
    InversionsArePairs(arr[..]);
    if arr.Length == 0 { return 0; }
    ghost var s := arr[..];
    inversions := MergeSortRange(arr, 0, arr.Length - 1);
    assert s[0..arr.Length - 1 + 1] == s && arr[..][0..arr.Length - 1 + 1] == arr[..];
  }
}
