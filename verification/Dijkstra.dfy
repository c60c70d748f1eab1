/** Single-source shortest paths with a lazily pruned priority queue. */
module Dijkstra {
  import opened Sequences

  /** The largest 32-bit int, used as "not reached". */
  const INF: int := 0x7fff_ffff

  datatype Edge = Edge(to: int, weight: int)
  type Graph = seq<seq<Edge>>

  /** A priority-queue entry: distance, then node. */
  type Entry = (int, int)

  ghost predicate ValidGraph(g: Graph) {
    forall u, e :: 0 <= u < |g| && e in g[u] ==> 0 <= e.to < |g| && 0 <= e.weight
  }

  // ----- Walks: the independent notion of distance -----

  ghost function End(s: int, p: seq<Edge>): int {
    if p == [] then s else p[|p| - 1].to
  }

  ghost function Weight(p: seq<Edge>): int {
    if p == [] then 0 else Weight(p[..|p| - 1]) + p[|p| - 1].weight
  }

  ghost predicate IsWalk(g: Graph, s: int, p: seq<Edge>) {
    if p == [] then 0 <= s < |g|
    else
      var q := p[..|p| - 1];
      IsWalk(g, s, q) && 0 <= End(s, q) < |g| && p[|p| - 1] in g[End(s, q)]
  }

  ghost predicate WalkTo(g: Graph, s: int, p: seq<Edge>, v: int) {
    IsWalk(g, s, p) && End(s, p) == v
  }

  ghost predicate Reachable(g: Graph, s: int, v: int) {
    exists p :: WalkTo(g, s, p, v)
  }

  /** d is the least weight of any walk from s to v. */
  ghost predicate IsDistance(g: Graph, s: int, v: int, d: int) {
    && (exists p :: WalkTo(g, s, p, v) && Weight(p) == d)
    && (forall p :: WalkTo(g, s, p, v) ==> d <= Weight(p))
  }

  /** No shortest path, extended by one edge, adds up to INT_MAX: exactly the sums the
      program forms. */
  ghost predicate NoOverflow(g: Graph, s: int) {
    forall u, d, e :: 0 <= u < |g| && IsDistance(g, s, u, d) && e in g[u] ==> d + e.weight < INF
  }

  /** The nodes a walk visits, source first. */
  ghost function Nodes(s: int, p: seq<Edge>): seq<int> {
    if p == [] then [s] else Nodes(s, p[..|p| - 1]) + [p[|p| - 1].to]
  }

  lemma {:induction false} WalkExtend(g: Graph, s: int, p: seq<Edge>, e: Edge)
    requires IsWalk(g, s, p) && 0 <= End(s, p) < |g| && e in g[End(s, p)]
    ensures WalkTo(g, s, p + [e], e.to) && Weight(p + [e]) == Weight(p) + e.weight
    ensures Nodes(s, p + [e]) == Nodes(s, p) + [e.to]
  {
    assert (p + [e])[..|p + [e]| - 1] == p;
  }

  // ----- The queue -----

  predicate Before(a: Entry, b: Entry) {
    a.0 < b.0 || (a.0 == b.0 && a.1 <= b.1)
  }

  lemma {:induction false} MinExists(pq: multiset<Entry>) returns (e: Entry)
    requires |pq| > 0
    ensures e in pq && forall f :: f in pq ==> Before(e, f)
    decreases |pq|
  {
    var x :| x in pq;
    var rest := pq - multiset{x};
    e := x;
    if |rest| > 0 {
      e := MinExists(rest);
      if Before(x, e) { e := x; }
    } else {
      assert rest == multiset{};
    }
    forall f | f in pq ensures Before(e, f) {
      assert f == x || f in rest;
    }
  }

  // ----- Invariants -----

  /** walks[v] is a walk of weight dist[v]; for v other than s it ends with an edge out of
      prev[v], after the walk recorded for prev[v]. */
  ghost predicate Branch(g: Graph, s: int, dist: seq<int>, prev: seq<int>, walks: seq<seq<Edge>>, done: set<int>, v: int)
    requires |dist| == |prev| == |walks| == |g| && 0 <= v < |g|
  {
    if dist[v] == INF then prev[v] == -1
    else
      && WalkTo(g, s, walks[v], v) && Weight(walks[v]) == dist[v]
      && (v != s ==>
            && prev[v] in done && 0 <= prev[v] < |g|
            && |walks[v]| > 0 && walks[v][..|walks[v]| - 1] == walks[prev[v]])
  }

  /** dist and prev describe a tree of walks rooted at s. */
  ghost predicate Tree(g: Graph, s: int, dist: seq<int>, prev: seq<int>, walks: seq<seq<Edge>>, done: set<int>) {
    && |dist| == |prev| == |walks| == |g|
    && 0 <= s < |g| && dist[s] == 0 && prev[s] == -1 && walks[s] == []
    && (forall v :: 0 <= v < |g| ==> 0 <= dist[v] <= INF)
    && (forall v {:trigger Branch(g, s, dist, prev, walks, done, v)} ::
          0 <= v < |g| ==> Branch(g, s, dist, prev, walks, done, v))
  }

  /** A queued entry is no better than its node's distance, and outdated once that is settled. */
  ghost predicate EntryOk(dist: seq<int>, done: set<int>, pq: multiset<Entry>, e: Entry) {
    && 0 <= e.1 < |dist| && dist[e.1] <= e.0 < INF && pq[e] == 1
    && (e.1 in done ==> dist[e.1] < e.0)
  }

  /** A settled node is no farther than anything still to be settled. */
  ghost predicate Ahead(dist: seq<int>, done: set<int>, pq: multiset<Entry>, u: int) {
    && 0 <= u < |dist| && dist[u] < INF
    && (forall v :: 0 <= v < |dist| && v !in done ==> dist[u] <= dist[v])
    && (forall e {:trigger pq[e]} :: e in pq ==> dist[u] <= e.0)
  }

  /** A node reached but not settled is queued under its current distance. */
  ghost predicate Queued(dist: seq<int>, done: set<int>, pq: multiset<Entry>, v: int)
    requires 0 <= v < |dist|
  {
    v in done || dist[v] >= INF || (dist[v], v) in pq
  }

  ghost predicate Frontier(dist: seq<int>, done: set<int>, pq: multiset<Entry>) {
    && (forall u {:trigger Ahead(dist, done, pq, u)} :: u in done ==> Ahead(dist, done, pq, u))
    && (forall e {:trigger EntryOk(dist, done, pq, e)} :: e in pq ==> EntryOk(dist, done, pq, e))
    && (forall v {:trigger Queued(dist, done, pq, v)} :: 0 <= v < |dist| ==> Queued(dist, done, pq, v))
  }

  ghost predicate Relaxed(g: Graph, dist: seq<int>, u: int, k: int)
    requires 0 <= u < |g| && 0 <= k <= |g[u]| && |dist| == |g| && ValidGraph(g)
  {
    forall i :: 0 <= i < k ==> g[u][i] in g[u] && dist[g[u][i].to] <= dist[u] + g[u][i].weight < INF
  }

  ghost predicate AllRelaxed(g: Graph, dist: seq<int>, done: set<int>)
    requires |dist| == |g| && ValidGraph(g)
  {
    forall u :: u in done ==> 0 <= u < |g| && Relaxed(g, dist, u, |g[u]|)
  }

  /** Out-degrees of the nodes below n that are not in done. */
  ghost function Pending(g: Graph, done: set<int>, n: nat): nat
    requires n <= |g|
  {
    if n == 0 then 0 else Pending(g, done, n - 1) + (if n - 1 in done then 0 else |g[n - 1]|)
  }

  ghost function EdgeCount(g: Graph): nat {
    Pending(g, {}, |g|)
  }

  lemma {:induction false} PendingDone(g: Graph, done: set<int>, u: int, n: nat)
    requires n <= |g| && 0 <= u < |g| && u !in done
    ensures Pending(g, done + {u}, n) == Pending(g, done, n) - (if u < n then |g[u]| else 0)
  {
    if n > 0 { PendingDone(g, done, u, n - 1); }
  }

  /** The cut argument: any walk either ends in a settled node no lighter than its
      distance, or weighs at least m, the least tentative distance outside. */
  lemma {:induction false} Cut(g: Graph, s: int, dist: seq<int>, done: set<int>, m: int, p: seq<Edge>)
    requires ValidGraph(g) && |dist| == |g| && AllRelaxed(g, dist, done)
    requires forall v :: 0 <= v < |g| && v !in done ==> m <= dist[v]
    requires 0 <= s < |g| && dist[s] == 0
    requires IsWalk(g, s, p)
    ensures 0 <= End(s, p) < |g|
    ensures Weight(p) >= m || (End(s, p) in done && dist[End(s, p)] <= Weight(p))
    decreases |p|
  {
    if p != [] {
      var q, e := p[..|p| - 1], p[|p| - 1];
      Cut(g, s, dist, done, m, q);
      var u := End(s, q);
      var i :| 0 <= i < |g[u]| && g[u][i] == e;
      if Weight(q) < m {
        assert Relaxed(g, dist, u, |g[u]|);
        assert dist[e.to] <= dist[u] + e.weight;
      }
    }
  }

  /** The node on top of the queue is settled: its tentative distance is the true one. */
  lemma Settle(g: Graph, s: int, dist: seq<int>, prev: seq<int>, walks: seq<seq<Edge>>, done: set<int>, u: int)
    requires ValidGraph(g) && Tree(g, s, dist, prev, walks, done) && AllRelaxed(g, dist, done)
    requires 0 <= u < |g| && dist[u] < INF && u !in done
    requires forall v :: 0 <= v < |g| && v !in done ==> dist[u] <= dist[v]
    ensures IsDistance(g, s, u, dist[u])
  {
    assert Branch(g, s, dist, prev, walks, done, u);
    forall p | WalkTo(g, s, p, u) ensures dist[u] <= Weight(p) {
      Cut(g, s, dist, done, dist[u], p);
    }
  }

  /** One successful relaxation keeps the tree. */
  lemma RelaxTree(g: Graph, s: int, dist: seq<int>, prev: seq<int>, walks: seq<seq<Edge>>, done: set<int>,
                  u: int, e: Edge)
    requires ValidGraph(g) && Tree(g, s, dist, prev, walks, done)
    requires u in done && 0 <= u < |g| && e in g[u] && 0 <= e.to < |g| && e.to !in done
    requires dist[u] < INF
    requires dist[u] + e.weight < INF && dist[u] + e.weight < dist[e.to]
    ensures Tree(g, s, dist[e.to := dist[u] + e.weight], prev[e.to := u], walks[e.to := walks[u] + [e]], done)
  {
    var dist', prev' := dist[e.to := dist[u] + e.weight], prev[e.to := u];
    var walks' := walks[e.to := walks[u] + [e]];
    assert Branch(g, s, dist, prev, walks, done, u);
    WalkExtend(g, s, walks[u], e);
    assert (walks[u] + [e])[..|walks[u] + [e]| - 1] == walks[u];
    forall v | 0 <= v < |g| ensures Branch(g, s, dist', prev', walks', done, v) {
      assert Branch(g, s, dist, prev, walks, done, v);
    }
  }

  lemma TreeGrows(g: Graph, s: int, dist: seq<int>, prev: seq<int>, walks: seq<seq<Edge>>, done: set<int>, u: int)
    requires Tree(g, s, dist, prev, walks, done)
    ensures Tree(g, s, dist, prev, walks, done + {u})
  {
    forall v | 0 <= v < |g| ensures Branch(g, s, dist, prev, walks, done + {u}, v) {
      assert Branch(g, s, dist, prev, walks, done, v);
    }
  }

  /** One successful relaxation keeps the frontier. */
  lemma RelaxFrontier(dist: seq<int>, done: set<int>, pq: multiset<Entry>, u: int, v: int, d: int)
    requires Frontier(dist, done, pq)
    requires u in done && 0 <= u < |dist| && 0 <= v < |dist| && v !in done
    requires dist[u] <= d < dist[v] && d < INF
    requires forall w :: w in done ==> 0 <= w < |dist| && dist[w] <= dist[u]
    ensures Frontier(dist[v := d], done, pq + multiset{(d, v)})
  {
    var pq', dist' := pq + multiset{(d, v)}, dist[v := d];
    assert !EntryOk(dist, done, pq, (d, v));
    forall e | e in pq' ensures EntryOk(dist', done, pq', e) {
      assert e == (d, v) || e in pq;
      assert e in pq ==> EntryOk(dist, done, pq, e);
    }
    forall w | w in done ensures Ahead(dist', done, pq', w) {
      assert Ahead(dist, done, pq, w);
    }
    forall w | 0 <= w < |dist| ensures Queued(dist', done, pq', w) {
      assert Queued(dist, done, pq, w);
      assert (dist'[w], w) in pq ==> (dist'[w], w) in pq';
    }
  }

  ghost predicate IsTop(pq: multiset<Entry>, e: Entry) {
    e in pq && forall f {:trigger pq[f]} :: f in pq ==> Before(e, f)
  }

  /** Dropping an outdated entry keeps the frontier. */
  lemma DropStale(dist: seq<int>, done: set<int>, pq: multiset<Entry>, e: Entry)
    requires Frontier(dist, done, pq) && e in pq && 0 <= e.1 < |dist| && e.0 > dist[e.1]
    ensures Frontier(dist, done, pq - multiset{e})
  {
    var pq' := pq - multiset{e};
    forall f | f in pq' ensures EntryOk(dist, done, pq', f) {
      assert f in pq;
      assert EntryOk(dist, done, pq, f) && EntryOk(dist, done, pq, e);
    }
    forall w | w in done ensures Ahead(dist, done, pq', w) {
      assert Ahead(dist, done, pq, w);
      assert forall f :: f in pq' ==> f in pq;
    }
    forall w | 0 <= w < |dist| ensures Queued(dist, done, pq', w) {
      assert Queued(dist, done, pq, w);
      assert (dist[w], w) != e;
    }
  }

  /** Settling the node of an up-to-date top entry keeps the frontier. */
  lemma SettleTop(dist: seq<int>, done: set<int>, pq: multiset<Entry>, e: Entry)
    requires Frontier(dist, done, pq) && IsTop(pq, e) && 0 <= e.1 < |dist| && e.0 <= dist[e.1]
    ensures e.0 == dist[e.1] < INF && e.1 !in done && e.1 in done + {e.1}
    ensures forall v :: 0 <= v < |dist| && v !in done ==> dist[e.1] <= dist[v]
    ensures forall w :: w in done + {e.1} ==> 0 <= w < |dist| && dist[w] <= dist[e.1]
    ensures Frontier(dist, done + {e.1}, pq - multiset{e})
  {
    var pq', done' := pq - multiset{e}, done + {e.1};
    assert EntryOk(dist, done, pq, e);
    forall v | 0 <= v < |dist| && v !in done ensures dist[e.1] <= dist[v] {
      assert Queued(dist, done, pq, v);
      if dist[v] < INF { assert Before(e, (dist[v], v)); }
    }
    forall f | f in pq' ensures EntryOk(dist, done', pq', f) && Before(e, f) {
      assert f in pq;
      assert EntryOk(dist, done, pq, f);
      assert f != e;
    }
    forall w | w in done' ensures Ahead(dist, done', pq', w) && dist[w] <= dist[e.1] {
      assert w in done ==> Ahead(dist, done, pq, w);
      assert forall f :: f in pq' ==> f in pq && Before(e, f);
    }
    forall w | 0 <= w < |dist| ensures Queued(dist, done', pq', w) {
      assert Queued(dist, done, pq, w);
    }
  }

  /** Node v got its true distance and a predecessor on a shortest walk. */
  ghost predicate Solved(g: Graph, s: int, dist: seq<int>, prev: seq<int>, walks: seq<seq<Edge>>, v: int)
    requires |dist| == |prev| == |walks| == |g| && 0 <= v < |g|
  {
    if Reachable(g, s, v) then
      && IsDistance(g, s, v, dist[v]) && dist[v] < INF
      && WalkTo(g, s, walks[v], v) && Weight(walks[v]) == dist[v]
      && (if v == s then prev[v] == -1 && walks[v] == []
          else
            && 0 <= prev[v] < |g| && Reachable(g, s, prev[v])
            && |walks[v]| > 0 && walks[v][..|walks[v]| - 1] == walks[prev[v]])
    else dist[v] == INF && prev[v] == -1
  }

  /** What the program returns: true distances, and predecessor links along shortest walks. */
  ghost predicate ShortestPathTree(g: Graph, s: int, dist: seq<int>, prev: seq<int>, walks: seq<seq<Edge>>) {
    && |dist| == |prev| == |walks| == |g| && 0 <= s < |g|
    && (forall v {:trigger Solved(g, s, dist, prev, walks, v)} ::
          0 <= v < |g| ==> Solved(g, s, dist, prev, walks, v))
  }

  /** Exact distances; INF for the nodes out of reach. */
  ghost predicate ExactDistances(g: Graph, s: int, dist: seq<int>) {
    |dist| == |g| && forall v :: 0 <= v < |g| ==>
      if Reachable(g, s, v) then IsDistance(g, s, v, dist[v]) && dist[v] < INF else dist[v] == INF
  }

  ghost predicate LastStep(g: Graph, dist: seq<int>, u: int, v: int)
    requires |dist| == |g| && 0 <= v < |g|
  {
    0 <= u < |g| && exists e :: e in g[u] && e.to == v && dist[u] + e.weight == dist[v]
  }

  /** A predecessor is one edge short of a shortest walk; source and unreachable nodes have none. */
  ghost predicate ExactPredecessors(g: Graph, s: int, dist: seq<int>, prev: seq<int>)
    requires |dist| == |g|
  {
    |prev| == |g| && forall v :: 0 <= v < |g| ==>
      if Reachable(g, s, v) && v != s then Reachable(g, s, prev[v]) && LastStep(g, dist, prev[v], v)
      else prev[v] == -1
  }

  lemma TreeIsExact(g: Graph, s: int, dist: seq<int>, prev: seq<int>, walks: seq<seq<Edge>>)
    requires ShortestPathTree(g, s, dist, prev, walks)
    ensures ExactDistances(g, s, dist) && ExactPredecessors(g, s, dist, prev)
  {
    forall v | 0 <= v < |g|
      ensures if Reachable(g, s, v) then IsDistance(g, s, v, dist[v]) && dist[v] < INF else dist[v] == INF
      ensures if Reachable(g, s, v) && v != s then Reachable(g, s, prev[v]) && LastStep(g, dist, prev[v], v)
              else prev[v] == -1
    {
      assert Solved(g, s, dist, prev, walks, v);
      if Reachable(g, s, v) && v != s {
        assert Solved(g, s, dist, prev, walks, prev[v]);
        var e := walks[v][|walks[v]| - 1];
        assert e in g[prev[v]] && e.to == v && dist[prev[v]] + e.weight == dist[v];
      }
    }
  }

  /** With the queue drained, every distance is exact and every reachable node settled. */
  lemma Drained(g: Graph, s: int, dist: seq<int>, prev: seq<int>, walks: seq<seq<Edge>>, done: set<int>)
    requires ValidGraph(g) && Tree(g, s, dist, prev, walks, done) && AllRelaxed(g, dist, done)
    requires Frontier(dist, done, multiset{})
    ensures forall v :: 0 <= v < |g| ==> (v in done <==> Reachable(g, s, v))
    ensures ShortestPathTree(g, s, dist, prev, walks)
  {
    forall v | 0 <= v < |g| && v !in done ensures dist[v] >= INF {
      assert Queued(dist, done, multiset{}, v);
    }
    forall v, p | 0 <= v < |g| && WalkTo(g, s, p, v) ensures v in done && dist[v] <= Weight(p) {
      DoneClosed(g, s, dist, done, p);
    }
    forall v | 0 <= v < |g|
      ensures v in done <==> Reachable(g, s, v)
    {
      assert Branch(g, s, dist, prev, walks, done, v);
      if v in done {
        assert Ahead(dist, done, multiset{}, v);
        assert WalkTo(g, s, walks[v], v);
      }
    }
    forall v | 0 <= v < |g| ensures Solved(g, s, dist, prev, walks, v) {
      assert Branch(g, s, dist, prev, walks, done, v);
      if v in done {
        assert Ahead(dist, done, multiset{}, v);
        assert WalkTo(g, s, walks[v], v) && Weight(walks[v]) == dist[v];
      }
    }
  }

  lemma {:induction false} DoneClosed(g: Graph, s: int, dist: seq<int>, done: set<int>, p: seq<Edge>)
    requires ValidGraph(g) && |dist| == |g| && AllRelaxed(g, dist, done)
    requires 0 <= s < |g| && dist[s] == 0
    requires forall v :: 0 <= v < |g| && v !in done ==> dist[v] >= INF
    requires IsWalk(g, s, p)
    ensures End(s, p) in done && dist[End(s, p)] <= Weight(p)
    decreases |p|
  {
    if p != [] {
      var q, e := p[..|p| - 1], p[|p| - 1];
      DoneClosed(g, s, dist, done, q);
      var u := End(s, q);
      var i :| 0 <= i < |g[u]| && g[u][i] == e;
      assert Relaxed(g, dist, u, |g[u]|);
      assert dist[e.to] <= dist[u] + e.weight < INF;
    }
  }

  /** State at the head of the main loop. */
  ghost predicate Settled(g: Graph, s: int, dist: seq<int>, prev: seq<int>, walks: seq<seq<Edge>>,
                          done: set<int>, pq: multiset<Entry>)
    requires ValidGraph(g)
  {
    Tree(g, s, dist, prev, walks, done) && Frontier(dist, done, pq) && AllRelaxed(g, dist, done)
  }

  /** State while the edges of u are scanned, k of them done. */
  ghost predicate Scanning(g: Graph, s: int, dist: seq<int>, prev: seq<int>, walks: seq<seq<Edge>>,
                           done: set<int>, pq: multiset<Entry>, u: int, k: int)
    requires ValidGraph(g) && 0 <= u < |g| && 0 <= k <= |g[u]|
  {
    && Tree(g, s, dist, prev, walks, done + {u}) && Frontier(dist, done + {u}, pq)
    && AllRelaxed(g, dist, done) && Relaxed(g, dist, u, k)
    && (forall w :: w in done ==> 0 <= w < |g| && dist[w] <= dist[u])
    && (forall e :: e in g[u] ==> dist[u] + e.weight < INF)
  }

  lemma ScanStart(g: Graph, s: int, dist: seq<int>, prev: seq<int>, walks: seq<seq<Edge>>,
                  done: set<int>, pq: multiset<Entry>, top: Entry)
    requires ValidGraph(g) && NoOverflow(g, s)
    requires Settled(g, s, dist, prev, walks, done, pq) && IsTop(pq, top)
    requires 0 <= top.1 < |g| && top.0 <= dist[top.1]
    ensures top.1 !in done
    ensures Scanning(g, s, dist, prev, walks, done, pq - multiset{top}, top.1, 0)
  {
    SettleTop(dist, done, pq, top);
    Settle(g, s, dist, prev, walks, done, top.1);
    TreeGrows(g, s, dist, prev, walks, done, top.1);
  }

  /** Lowering a tentative distance keeps relaxed edges relaxed. */
  lemma RelaxedKept(g: Graph, dist: seq<int>, u: int, k: int, v: int, d: int)
    requires ValidGraph(g) && 0 <= u < |g| && 0 <= k <= |g[u]| && |dist| == |g| && Relaxed(g, dist, u, k)
    requires 0 <= v < |g| && v != u && d < dist[v]
    ensures Relaxed(g, dist[v := d], u, k)
  {
  }

  lemma ScanEdge(g: Graph, s: int, dist: seq<int>, prev: seq<int>, walks: seq<seq<Edge>>,
                 done: set<int>, pq: multiset<Entry>, u: int, k: int)
    requires ValidGraph(g) && 0 <= u < |g| && 0 <= k < |g[u]|
    requires Scanning(g, s, dist, prev, walks, done, pq, u, k)
    ensures |dist| == |prev| == |walks| == |g| && g[u][k] in g[u]
    ensures dist[u] + g[u][k].weight < INF
    ensures dist[u] + g[u][k].weight >= dist[g[u][k].to] ==> Scanning(g, s, dist, prev, walks, done, pq, u, k + 1)
  {
    assert g[u][k] in g[u];
  }

  lemma ScanImproves(g: Graph, s: int, dist: seq<int>, prev: seq<int>, walks: seq<seq<Edge>>,
                     done: set<int>, pq: multiset<Entry>, u: int, k: int, v: int, d: int)
    requires ValidGraph(g) && 0 <= u < |g| && 0 <= k < |g[u]|
    requires Scanning(g, s, dist, prev, walks, done, pq, u, k)
    requires g[u][k] in g[u] && v == g[u][k].to && d == dist[u] + g[u][k].weight < dist[v]
    ensures v != u && d < INF
    ensures Scanning(g, s, dist[v := d], prev[v := u], walks[v := walks[u] + [g[u][k]]],
                     done, pq + multiset{(d, v)}, u, k + 1)
  {
    assert v !in done + {u};
    RelaxTree(g, s, dist, prev, walks, done + {u}, u, g[u][k]);
    RelaxFrontier(dist, done + {u}, pq, u, v, d);
    forall w | w in done ensures 0 <= w < |g| && Relaxed(g, dist[v := d], w, |g[w]|) {
      RelaxedKept(g, dist, w, |g[w]|, v, d);
    }
    RelaxedKept(g, dist, u, k, v, d);
  }

  lemma ScanEnd(g: Graph, s: int, dist: seq<int>, prev: seq<int>, walks: seq<seq<Edge>>,
                done: set<int>, pq: multiset<Entry>, u: int)
    requires ValidGraph(g) && 0 <= u < |g|
    requires Scanning(g, s, dist, prev, walks, done, pq, u, |g[u]|)
    ensures Settled(g, s, dist, prev, walks, done + {u}, pq)
  {
  }

  /** Relaxes the edges of u; pushes counts the queue insertions. */
  method ScanEdges(g: Graph, ghost source: int, dist0: seq<int>, prev0: seq<int>, ghost walks0: seq<seq<Edge>>,
                   ghost done: set<int>, pq0: multiset<Entry>, u: int)
    returns (dist: seq<int>, prev: seq<int>, ghost walks: seq<seq<Edge>>, pq: multiset<Entry>, ghost pushes: nat)
    requires ValidGraph(g) && 0 <= u < |g| && Scanning(g, source, dist0, prev0, walks0, done, pq0, u, 0)
    ensures Settled(g, source, dist, prev, walks, done + {u}, pq)
    ensures |dist| == |g| && Relaxed(g, dist, u, |g[u]|)
    ensures pushes <= |g[u]|
  {
    dist, prev, walks, pq, pushes := dist0, prev0, walks0, pq0, 0;
    for k := 0 to |g[u]|
      invariant Scanning(g, source, dist, prev, walks, done, pq, u, k)
      invariant pushes <= k
    {
      ScanEdge(g, source, dist, prev, walks, done, pq, u, k);
      var e := g[u][k];
      if dist[u] + e.weight < dist[e.to] {
        ghost var d' := dist[u] + e.weight;
        ScanImproves(g, source, dist, prev, walks, done, pq, u, k, e.to, d');
        walks := walks[e.to := walks[u] + [e]];
        dist := dist[e.to := dist[u] + e.weight];
        prev := prev[e.to := u];
        pq := pq + multiset{(dist[e.to], e.to)};
        pushes := pushes + 1;
        assert dist[e.to] == d';
      }
    }
    ScanEnd(g, source, dist, prev, walks, done, pq, u);
  }

  /** The program. `pushes` counts queue insertions and `order` lists the nodes in the order
      their edges are scanned. */
  method Dijkstra(g: Graph, source: int)
    returns (dist: seq<int>, prev: seq<int>, ghost walks: seq<seq<Edge>>, ghost pushes: nat, ghost order: seq<int>)
    requires ValidGraph(g) && 0 <= source < |g| && NoOverflow(g, source)
    ensures ExactDistances(g, source, dist) && ExactPredecessors(g, source, dist, prev)
    ensures ShortestPathTree(g, source, dist, prev, walks)
    ensures Distinct(order)
    ensures forall v :: v in order <==> 0 <= v < |g| && Reachable(g, source, v)
    ensures pushes <= 1 + EdgeCount(g)
  {
    dist := seq(|g|, _ => INF)[source := 0];
    prev := seq(|g|, _ => -1);
    walks := seq(|g|, _ => []);
    var pq: multiset<Entry> := multiset{(0, source)};
    ghost var done: set<int> := {};
    pushes, order := 1, [];

    while |pq| > 0
      invariant Settled(g, source, dist, prev, walks, done, pq)
      invariant forall v :: v in order <==> v in done
      invariant Distinct(order)
      invariant pushes + Pending(g, done, |g|) <= 1 + EdgeCount(g)
      decreases Unsettled(|g|, done), |pq|
    {
      ghost var least := MinExists(pq);
      assert IsTop(pq, least);
      var top :| top in pq && forall f :: f in pq ==> Before(top, f);
      assert IsTop(pq, top) && EntryOk(dist, done, pq, top);
      var (d, u) := top;
      ghost var before := pq;
      pq := pq - multiset{top};
      if d > dist[u] {
        DropStale(dist, done, before, top);
        continue;
      }
      ScanStart(g, source, dist, prev, walks, done, before, top);
      PendingDone(g, done, u, |g|);
      UnsettledDone(|g|, done, u);
      order := order + [u];

      ghost var more: nat;
      dist, prev, walks, pq, more := ScanEdges(g, source, dist, prev, walks, done, pq, u);
      pushes := pushes + more;
      done := done + {u};
    }
    assert pq == multiset{};
    Drained(g, source, dist, prev, walks, done);
    TreeIsExact(g, source, dist, prev, walks);
  }

  /** Number of nodes below n not yet settled. */
  ghost function Unsettled(n: nat, done: set<int>): nat {
    if n == 0 then 0 else Unsettled(n - 1, done) + (if n - 1 in done then 0 else 1)
  }

  lemma {:induction false} UnsettledDone(n: nat, done: set<int>, u: int)
    requires 0 <= u && u !in done
    ensures Unsettled(n, done + {u}) == Unsettled(n, done) - (if u < n then 1 else 0)
  {
    if n > 0 { UnsettledDone(n - 1, done, u); }
  }

  // ----- Path reconstruction -----

  /** The predecessor links have no cycle: some rank falls along every link. */
  ghost predicate Rooted(prev: seq<int>, rank: seq<nat>) {
    && |rank| == |prev|
    && forall v :: 0 <= v < |prev| && prev[v] != -1 ==> 0 <= prev[v] < |prev| && rank[prev[v]] < rank[v]
  }

  /** path follows predecessor links backwards from target to source, where they end. */
  ghost predicate RootChain(prev: seq<int>, path: seq<int>, source: int, target: int) {
    && |path| > 0 && path[0] == source && path[|path| - 1] == target
    && (forall i :: 0 <= i < |path| ==> 0 <= path[i] < |prev|)
    && prev[source] == -1
    && (forall i :: 0 < i < |path| ==> prev[path[i]] == path[i - 1])
  }

  lemma {:induction false} ChainUnique(prev: seq<int>, p: seq<int>, q: seq<int>, s: int, s': int, t: int)
    requires RootChain(prev, p, s, t) && RootChain(prev, q, s', t)
    ensures p == q
    decreases |p|
  {
    assert prev[t] == if |p| == 1 then -1 else p[|p| - 2];
    assert prev[t] == if |q| == 1 then -1 else q[|q| - 2];
    if |p| > 1 {
      ChainUnique(prev, p[..|p| - 1], q[..|q| - 1], s, s', p[|p| - 2]);
      assert p == p[..|p| - 1] + [t] && q == q[..|q| - 1] + [t];
    }
  }

  method ReconstructPath(prev: seq<int>, source: int, target: int) returns (path: seq<int>)
    requires exists rank :: Rooted(prev, rank)
    requires 0 <= target < |prev|
    ensures path != [] ==> RootChain(prev, path, source, target)
    ensures path == [] ==> forall p :: !RootChain(prev, p, source, target)
  {
    ghost var rank :| Rooted(prev, rank);
    var v := target;
    path := [];
    while v != -1
      invariant v == -1 || 0 <= v < |prev|
      invariant path != [] ==> path[0] == target
      invariant forall i :: 0 <= i < |path| ==> 0 <= path[i] < |prev|
      invariant v == if path == [] then target else prev[path[|path| - 1]]
      invariant forall i :: 0 < i < |path| ==> path[i] == prev[path[i - 1]]
      decreases if v == -1 then 0 else 1 + rank[v]
    {
      path := path + [v];
      v := prev[v];
    }
    var collected := path;
    path := Reversed(collected);
    forall i | 0 < i < |path| ensures prev[path[i]] == path[i - 1] {
      assert collected[|collected| - i] == prev[collected[|collected| - i - 1]];
    }
    assert RootChain(prev, path, path[0], target);
    if path[0] != source {
      forall p ensures !RootChain(prev, p, source, target) {
        if RootChain(prev, p, source, target) {
          ChainUnique(prev, path, p, path[0], source, target);
        }
      }
      return [];
    }
  }

  /** Walk lengths rank the predecessor links, so they form no cycle even over edges of
      weight zero. */
  lemma TreeIsRooted(g: Graph, s: int, dist: seq<int>, prev: seq<int>, walks: seq<seq<Edge>>)
    requires ShortestPathTree(g, s, dist, prev, walks)
    ensures exists rank :: Rooted(prev, rank)
  {
    var rank: seq<nat> := seq(|g|, v requires 0 <= v < |g| => |walks[v]|);
    forall v | 0 <= v < |prev| && prev[v] != -1
      ensures 0 <= prev[v] < |prev| && rank[prev[v]] < rank[v]
    {
      assert Solved(g, s, dist, prev, walks, v);
      assert walks[v][..|walks[v]| - 1] == walks[prev[v]];
    }
    assert Rooted(prev, rank);
  }

  lemma {:induction false} WalkIsChain(g: Graph, s: int, dist: seq<int>, prev: seq<int>, walks: seq<seq<Edge>>, t: int)
    requires ShortestPathTree(g, s, dist, prev, walks) && 0 <= t < |g| && Reachable(g, s, t)
    ensures RootChain(prev, Nodes(s, walks[t]), s, t)
    decreases |walks[t]|
  {
    assert Solved(g, s, dist, prev, walks, t) && Solved(g, s, dist, prev, walks, s);
    assert WalkTo(g, s, [], s);
    if t != s {
      WalkIsChain(g, s, dist, prev, walks, prev[t]);
      assert walks[t] == walks[prev[t]] + [walks[t][|walks[t]| - 1]];
    }
  }

  /** Both stages together: the reconstructed path is a shortest walk, or empty exactly when
      the target cannot be reached. */
  lemma PathIsShortest(g: Graph, s: int, dist: seq<int>, prev: seq<int>, walks: seq<seq<Edge>>, t: int, path: seq<int>)
    requires ShortestPathTree(g, s, dist, prev, walks) && 0 <= t < |g|
    requires if path != [] then RootChain(prev, path, s, t) else forall p :: !RootChain(prev, p, s, t)
    ensures path == [] <==> !Reachable(g, s, t)
    ensures path != [] ==>
      exists p :: WalkTo(g, s, p, t) && Weight(p) == dist[t] && path == Nodes(s, p) && IsDistance(g, s, t, dist[t])
  {
    assert path != [] ==> prev[t] == if |path| == 1 then -1 else path[|path| - 2];
    assert WalkTo(g, s, [], s);
    assert Solved(g, s, dist, prev, walks, t);
    if Reachable(g, s, t) {
      WalkIsChain(g, s, dist, prev, walks, t);
      ChainUnique(prev, path, Nodes(s, walks[t]), s, s, t);
    }
  }
}
