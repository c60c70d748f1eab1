/** Topological sort: the specification of both algorithms, and the graph facts they share. */
module TopologicalSort {
  import Pigeonhole
  import opened Sequences

  type Edges = seq<(int, int)>

  ghost predicate ValidEdges(n: nat, edges: Edges) {
    forall e :: e in edges ==> 0 <= e.0 < n && 0 <= e.1 < n
  }

  // ----- Specification -----

  /** c is a closed walk: a cycle, possibly a self-loop. */
  ghost predicate IsCycle(edges: Edges, c: seq<int>) {
    && |c| >= 2 && c[0] == c[|c| - 1]
    && forall i :: 0 <= i < |c| - 1 ==> (c[i], c[i + 1]) in edges
  }

  ghost predicate HasCycle(edges: Edges) {
    exists c :: IsCycle(edges, c)
  }

  /** A permutation of all nodes in which every edge points forward. */
  ghost predicate IsTopological(n: nat, edges: Edges, order: seq<int>) {
    && |order| == n && Distinct(order) && InRange(n, order)
    && forall i, j :: 0 <= i < n && 0 <= j < n && (order[i], order[j]) in edges ==> i < j
  }

  /** What both algorithms promise. */
  ghost predicate IsAnswer(n: nat, edges: Edges, r: seq<int>) {
    if HasCycle(edges) then r == [] else IsTopological(n, edges, r)
  }

  lemma {:induction false} CycleAdvances(n: nat, edges: Edges, order: seq<int>, c: seq<int>, k: nat) returns (p: nat, q: nat)
    requires IsTopological(n, edges, order) && ValidEdges(n, edges) && IsCycle(edges, c) && k < |c|
    ensures p < n && q < n && order[p] == c[0] && order[q] == c[k] && p + k <= q
    decreases k
  {
    Pigeonhole.CountsRange(order, n);
    if k == 0 {
      assert (c[0], c[1]) in edges;
      assert c[0] in order;
      p :| 0 <= p < n && order[p] == c[0];
      q := p;
    } else {
      var q';
      p, q' := CycleAdvances(n, edges, order, c, k - 1);
      assert (c[k - 1], c[k]) in edges;
      assert c[k] in order;
      q :| 0 <= q < n && order[q] == c[k];
    }
  }

  /** An order exists only for acyclic graphs. */
  lemma TopologicalMeansAcyclic(n: nat, edges: Edges, order: seq<int>)
    requires IsTopological(n, edges, order) && ValidEdges(n, edges)
    ensures !HasCycle(edges)
  {
    if c :| IsCycle(edges, c) {
      var p, q := CycleAdvances(n, edges, order, c, |c| - 1);
      assert false;
    }
  }

  /** For at least one node, an answer is empty exactly when the graph has a cycle; so any two
      answers agree on that. */
  lemma AnswersAgree(n: nat, edges: Edges, r: seq<int>, r': seq<int>)
    requires n > 0 && ValidEdges(n, edges) && IsAnswer(n, edges, r) && IsAnswer(n, edges, r')
    ensures r == [] <==> r' == []
    ensures r == [] <==> HasCycle(edges)
    ensures r != [] ==> multiset(r) == multiset(r')
  {
    if !HasCycle(edges) { SamePermutation(n, r, r'); }
  }

  lemma SamePermutation(n: nat, r: seq<int>, r': seq<int>)
    requires |r| == |r'| == n && Distinct(r) && Distinct(r') && InRange(n, r) && InRange(n, r')
    ensures multiset(r) == multiset(r')
  {
    forall x: int ensures multiset(r)[x] == multiset(r')[x] {
      Pigeonhole.CountsRange(r, n);
      Pigeonhole.CountsRange(r', n);
      OneEach(r, x);
      OneEach(r', x);
    }
  }

  lemma {:induction false} OneEach(r: seq<int>, x: int)
    requires Distinct(r)
    ensures multiset(r)[x] == if x in r then 1 else 0
    decreases |r|
  {
    if r != [] {
      OneEach(r[..|r| - 1], x);
      assert r == r[..|r| - 1] + [r[|r| - 1]];
    }
  }

  // ----- Adjacency lists and in-degrees -----

  ghost function Adj(edges: Edges, u: int): seq<int> {
    if edges == [] then []
    else
      var e := edges[|edges| - 1];
      Adj(edges[..|edges| - 1], u) + (if e.0 == u then [e.1] else [])
  }

  /** Number of edges into v from nodes outside done. */
  ghost function InDegree(edges: Edges, done: set<int>, v: int): nat {
    if edges == [] then 0
    else
      var e := edges[|edges| - 1];
      InDegree(edges[..|edges| - 1], done, v) + (if e.1 == v && e.0 !in done then 1 else 0)
  }

  lemma {:induction false} AdjIsEdges(edges: Edges, u: int, v: int)
    ensures v in Adj(edges, u) <==> (u, v) in edges
    decreases |edges|
  {
    if edges != [] {
      AdjIsEdges(edges[..|edges| - 1], u, v);
      assert edges == edges[..|edges| - 1] + [edges[|edges| - 1]];
    }
  }

  lemma {:induction false} DegreeDone(edges: Edges, done: set<int>, u: int, v: int)
    requires u !in done
    ensures InDegree(edges, done, v) == InDegree(edges, done + {u}, v) + multiset(Adj(edges, u))[v]
    decreases |edges|
  {
    if edges != [] { DegreeDone(edges[..|edges| - 1], done, u, v); }
  }

  lemma {:induction false} DegreeMeans(edges: Edges, done: set<int>, v: int)
    ensures InDegree(edges, done, v) == 0 <==> forall u :: (u, v) in edges ==> u in done
    decreases |edges|
  {
    if edges != [] {
      var rest, e := edges[..|edges| - 1], edges[|edges| - 1];
      DegreeMeans(rest, done, v);
      assert edges == rest + [e];
      if InDegree(edges, done, v) == 0 {
        forall u | (u, v) in edges ensures u in done {
          assert (u, v) in rest || (u, v) == e;
        }
      }
      if forall u :: (u, v) in edges ==> u in done {
        forall u | (u, v) in rest ensures u in done { assert (u, v) in edges; }
        assert e in edges;
        assert e.1 == v ==> (e.0, v) in edges;
      }
    }
  }

  ghost predicate EnteredFrom(edges: Edges, inside: set<int>, v: int) {
    exists u :: u in inside && (u, v) in edges
  }

  ghost predicate AllEntered(edges: Edges, inside: set<int>) {
    forall v {:trigger EnteredFrom(edges, inside, v)} :: v in inside ==> EnteredFrom(edges, inside, v)
  }

  /** p lists nodes inside, each entered from the next. */
  ghost predicate Backwards(edges: Edges, inside: set<int>, p: seq<int>) {
    && (forall i :: 0 <= i < |p| ==> p[i] in inside)
    && (forall i, j :: 0 <= i < |p| && 0 <= j < |p| && j == i + 1 ==> (p[j], p[i]) in edges)
  }

  /** A set with a node `start` in which every node has a predecessor in the set contains a cycle. */
  lemma PredecessorsMakeCycle(edges: Edges, stuck: set<int>, start: int)
    requires start in stuck && AllEntered(edges, stuck)
    ensures HasCycle(edges)
  {
    var p := WalkBack(edges, stuck, start, |stuck|);
    var i, j := Pigeonhole.Repeats(p, stuck);
    var c := seq(j - i + 1, k requires 0 <= k <= j - i => p[j - k]);
    forall k | 0 <= k < |c| - 1 ensures (c[k], c[k + 1]) in edges {
      var x, y := j - k - 1, j - k;
      assert (p[y], p[x]) in edges;
    }
    assert IsCycle(edges, c);
  }

  lemma {:induction false} WalkBack(edges: Edges, stuck: set<int>, start: int, k: nat) returns (p: seq<int>)
    requires start in stuck && AllEntered(edges, stuck)
    ensures |p| == k + 1 && Backwards(edges, stuck, p)
  {
    if k == 0 {
      p := [start];
    } else {
      var q := WalkBack(edges, stuck, start, k - 1);
      var v := q[k - 1];
      assert v in stuck && EnteredFrom(edges, stuck, v);
      var u :| u in stuck && (u, v) in edges;
      p := q + [u];
    }
  }

  /** Lists every node's targets, in the order of the edges. */
  method BuildAdjacency(n: nat, edges: Edges) returns (adj: seq<seq<int>>)
    requires ValidEdges(n, edges)
    ensures |adj| == n && forall u :: 0 <= u < n ==> adj[u] == Adj(edges, u)
  {
    adj := seq(n, _ => []);
    for k := 0 to |edges|
      invariant |adj| == n && forall u :: 0 <= u < n ==> adj[u] == Adj(edges[..k], u)
    {
      var (from, to) := edges[k];
      assert edges[k] in edges;
      assert edges[..k + 1][..k] == edges[..k];
      adj := adj[from := adj[from] + [to]];
    }
    assert edges[..|edges|] == edges;
  }
}
