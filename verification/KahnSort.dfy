/** Kahn's algorithm: nodes leave a queue once every edge into them has been counted off. */
module KahnSort {
  import Pigeonhole
  import opened Sequences
  import opened TopologicalSort

  /** Everything with an edge into order[i] stands before it. */
  ghost predicate PredecessorsFirst(edges: Edges, order: seq<int>) {
    forall i, u :: 0 <= i < |order| && (u, order[i]) in edges ==> u in order[..i]
  }

  ghost function Members(s: seq<int>): set<int> {
    set v | v in s
  }

  /** order has been emitted, k edges out of `node` (if any) have been counted off. */
  ghost predicate KahnState(n: nat, edges: Edges, inDegree: seq<int>, q: seq<int>, order: seq<int>,
                            done: set<int>, counted: multiset<int>)
  {
    && |inDegree| == n && InRange(n, order + q) && Distinct(order + q)
    && PredecessorsFirst(edges, order)
    && (forall v :: 0 <= v < n ==> inDegree[v] + counted[v] == InDegree(edges, done, v))
    && (forall v :: 0 <= v < n ==> (v in order + q <==> inDegree[v] == 0))
  }

  lemma PopNode(n: nat, edges: Edges, inDegree: seq<int>, q: seq<int>, order: seq<int>)
    requires ValidEdges(n, edges) && q != []
    requires KahnState(n, edges, inDegree, q, order, Members(order), multiset{})
    ensures 0 <= q[0] < n && q[0] !in order
    ensures KahnState(n, edges, inDegree, q[1..], order + [q[0]], Members(order), multiset{})
  {
    var node := q[0];
    assert (order + q)[|order|] == node && node in order + q;
    assert order + [node] + q[1..] == order + q;
    DegreeMeans(edges, Members(order), node);
    forall i, u | 0 <= i < |order + [node]| && (u, (order + [node])[i]) in edges
      ensures u in (order + [node])[..i]
    {
      assert (order + [node])[..i] == order[..i];
      if i == |order| { assert order[..i] == order; }
    }
    forall i | 0 <= i < |order| ensures order[i] != node {
      assert (order + q)[i] != (order + q)[|order|];
    }
  }

  /** Counting off one edge; its target joins the queue when it was the last one in. */
  lemma CountOff(n: nat, edges: Edges, inDegree: seq<int>, q: seq<int>, order: seq<int>,
                 done: set<int>, counted: multiset<int>, w: int)
    requires KahnState(n, edges, inDegree, q, order, done, counted) && 0 <= w < n
    requires counted[w] < InDegree(edges, done, w)
    ensures inDegree[w] >= 1
    ensures var d := inDegree[w] - 1;
            KahnState(n, edges, inDegree[w := d], if d == 0 then q + [w] else q, order, done, counted + multiset{w})
  {
    assert w !in order + q;
    var d := inDegree[w] - 1;
    if d == 0 {
      assert order + (q + [w]) == order + q + [w];
    }
  }

  lemma NodeDone(n: nat, edges: Edges, inDegree: seq<int>, q: seq<int>, order: seq<int>, node: int)
    requires node !in order
    requires KahnState(n, edges, inDegree, q, order + [node], Members(order), multiset(Adj(edges, node)))
    ensures KahnState(n, edges, inDegree, q, order + [node], Members(order + [node]), multiset{})
  {
    assert Members(order + [node]) == Members(order) + {node};
    forall v | 0 <= v < n ensures inDegree[v] == InDegree(edges, Members(order + [node]), v) {
      DegreeDone(edges, Members(order), node, v);
    }
  }

  lemma CompleteOrder(n: nat, edges: Edges, order: seq<int>)
    requires |order| == n && Distinct(order) && InRange(n, order) && PredecessorsFirst(edges, order)
    ensures IsTopological(n, edges, order)
  {
    forall i, j | 0 <= i < n && 0 <= j < n && (order[i], order[j]) in edges ensures i < j {
      var p :| 0 <= p < j && order[..j][p] == order[i];
      assert order[p] == order[i];
    }
  }

  lemma StuckNodes(n: nat, edges: Edges, order: seq<int>, left: int)
    requires ValidEdges(n, edges) && 0 <= left < n && left !in order
    requires forall v :: 0 <= v < n && v !in order ==> InDegree(edges, Members(order), v) != 0
    ensures HasCycle(edges)
  {
    var stuck := Pigeonhole.Range(n) - Members(order);
    forall v | v in stuck ensures EnteredFrom(edges, stuck, v) {
      DegreeMeans(edges, Members(order), v);
      var u :| (u, v) in edges && u !in Members(order);
      assert u in stuck;
    }
    PredecessorsMakeCycle(edges, stuck, left);
  }

  /** With the queue drained, the order is complete or the rest of the graph holds a cycle. */
  lemma KahnDrained(n: nat, edges: Edges, inDegree: seq<int>, order: seq<int>)
    requires ValidEdges(n, edges) && KahnState(n, edges, inDegree, [], order, Members(order), multiset{})
    ensures if |order| == n then IsTopological(n, edges, order) else HasCycle(edges)
  {
    assert order + [] == order;
    Pigeonhole.CountsRange(order, n);
    if |order| == n {
      CompleteOrder(n, edges, order);
    } else {
      var left :| 0 <= left < n && left !in order;
      StuckNodes(n, edges, order, left);
    }
  }

  method CountInDegrees(n: nat, edges: Edges) returns (inDegree: seq<int>)
    requires ValidEdges(n, edges)
    ensures |inDegree| == n && forall v :: 0 <= v < n ==> inDegree[v] == InDegree(edges, {}, v)
  {
    inDegree := seq(n, _ => 0);
    for k := 0 to |edges|
      invariant |inDegree| == n && forall v :: 0 <= v < n ==> inDegree[v] == InDegree(edges[..k], {}, v)
    {
      assert edges[k] in edges && edges[..k + 1][..k] == edges[..k];
      inDegree := inDegree[edges[k].1 := inDegree[edges[k].1] + 1];
    }
    assert edges[..|edges|] == edges;
  }

  method InitialQueue(n: nat, ghost edges: Edges, inDegree: seq<int>) returns (q: seq<int>)
    requires |inDegree| == n && forall v :: 0 <= v < n ==> inDegree[v] == InDegree(edges, {}, v)
    ensures KahnState(n, edges, inDegree, q, [], Members([]), multiset{})
  {
    q := [];
    for i := 0 to n
      invariant InRange(i, q) && Distinct(q) && forall v :: v in q <==> 0 <= v < i && inDegree[v] == 0
    {
      if inDegree[i] == 0 { q := q + [i]; }
    }
    assert [] + q == q && Members([]) == {};
  }

  /** Counts off the edges out of a node that has just been emitted. */
  method CountOffEdges(ghost n: nat, ghost edges: Edges, adj: seq<seq<int>>, inDegree0: seq<int>, q0: seq<int>,
                       ghost before: seq<int>, node: int)
    returns (inDegree: seq<int>, q: seq<int>)
    requires ValidEdges(n, edges) && 0 <= node < n == |adj| && adj[node] == Adj(edges, node) && node !in before
    requires KahnState(n, edges, inDegree0, q0, before + [node], Members(before), multiset{})
    ensures KahnState(n, edges, inDegree, q, before + [node], Members(before + [node]), multiset{})
  {
    inDegree, q := inDegree0, q0;
    ghost var done := Members(before);
    for k := 0 to |adj[node]|
      invariant KahnState(n, edges, inDegree, q, before + [node], done, multiset(adj[node][..k]))
    {
      var neighbor := adj[node][k];
      AdjIsEdges(edges, node, neighbor);
      assert adj[node][..k + 1] == adj[node][..k] + [neighbor];
      RoomToCount(edges, done, node, k);
      CountOff(n, edges, inDegree, q, before + [node], done, multiset(adj[node][..k]), neighbor);
      inDegree := inDegree[neighbor := inDegree[neighbor] - 1];
      if inDegree[neighbor] == 0 {
        q := q + [neighbor];
      }
    }
    assert adj[node][..|adj[node]|] == adj[node];
    NodeDone(n, edges, inDegree, q, before, node);
  }

  method TopoSortKahn(n: nat, edges: Edges) returns (order: seq<int>)
    requires ValidEdges(n, edges)
    ensures IsAnswer(n, edges, order)
  {
    var adj := BuildAdjacency(n, edges);
    var inDegree := CountInDegrees(n, edges);
    var q := InitialQueue(n, edges, inDegree);
    order := [];
    while |q| > 0
      invariant KahnState(n, edges, inDegree, q, order, Members(order), multiset{})
      decreases n - |order|
    {
      PopNode(n, edges, inDegree, q, order);
      ghost var before := order;
      var node := q[0];
      q := q[1..];
      order := order + [node];
      Pigeonhole.CountsRange(order + q, n);
      inDegree, q := CountOffEdges(n, edges, adj, inDegree, q, before, node);
    }
    KahnDrained(n, edges, inDegree, order);
    if |order| != n { return []; }
    TopologicalMeansAcyclic(n, edges, order);
  }

  /** Fewer edges have been counted off than there are. */
  lemma RoomToCount(edges: Edges, done: set<int>, node: int, k: nat)
    requires node !in done && k < |Adj(edges, node)|
    ensures var w := Adj(edges, node)[k]; multiset(Adj(edges, node)[..k])[w] < InDegree(edges, done, w)
  {
    var a := Adj(edges, node);
    DegreeDone(edges, done, node, a[k]);
    assert a == a[..k] + [a[k]] + a[k + 1..];
  }
}
