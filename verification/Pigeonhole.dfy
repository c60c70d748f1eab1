/** More holes than pigeons fill: the counting facts shared by the list and graph proofs. */
module Pigeonhole {
  import opened Sequences

  lemma {:induction false} Repeats<T>(s: seq<T>, holes: set<T>) returns (i: nat, j: nat)
    requires |s| > |holes| && forall k :: 0 <= k < |s| ==> s[k] in holes
    ensures i < j < |s| && s[i] == s[j]
    decreases |s|
  {
    var last := s[|s| - 1];
    var rest := s[..|s| - 1];
    if k :| 0 <= k < |rest| && rest[k] == last {
      return k, |s| - 1;
    }
    i, j := Repeats(rest, holes - {last});
  }

  /** A sequence without repetition inside a set of its own size covers the set. */
  lemma {:induction false} Covers<T>(s: seq<T>, holes: set<T>)
    requires forall k :: 0 <= k < |s| ==> s[k] in holes
    requires Distinct(s)
    ensures |s| <= |holes|
    ensures |s| == |holes| ==> forall x :: x in holes ==> x in s
    decreases |s|
  {
    if s != [] {
      var last, rest := s[|s| - 1], s[..|s| - 1];
      Covers(rest, holes - {last});
      assert s == rest + [last];
    } else if |holes| == 0 {
      assert holes == {};
    }
  }

  /** The numbers below n. */
  ghost function Range(n: nat): (r: set<int>)
    ensures forall v :: v in r <==> 0 <= v < n
    ensures |r| == n
  {
    if n == 0 then {} else Range(n - 1) + {n - 1}
  }

  /** Distinct members of 0..n that include all of them number exactly n. */
  lemma CountsRange(s: seq<int>, n: nat)
    requires Distinct(s) && InRange(n, s)
    ensures |s| <= n
    ensures |s| == n <==> forall v :: 0 <= v < n ==> v in s
  {
    Covers(s, Range(n));
    if |s| == n {
      assert forall v :: v in Range(n) ==> v in s;
    } else if forall v :: 0 <= v < n ==> v in s {
      var ident: seq<int> := seq(n, i => i);
      var members := set x | x in s;
      MembersBound(s);
      assert |members| < n;
      Covers(ident, members);
    }
  }

  lemma {:induction false} MembersBound<T>(s: seq<T>)
    ensures |set x | x in s| <= |s|
    decreases |s|
  {
    if s != [] {
      var last, rest := s[|s| - 1], s[..|s| - 1];
      MembersBound(rest);
      assert (set x | x in s) == (set x | x in rest) + {last};
    }
  }

  lemma Member<T>(s: set<T>) returns (x: T)
    requires s != {}
    ensures x in s
  {
    x :| x in s;
  }

  lemma {:induction false} SubsetSize<T>(a: set<T>, b: set<T>)
    requires a <= b
    ensures |a| <= |b|
  {
    if a != {} {
      var x := Member(a);
      SubsetSize(a - {x}, b - {x});
    }
  }
}
