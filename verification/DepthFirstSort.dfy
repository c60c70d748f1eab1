/** Topological sort by depth-first search: reverse post-order. */
module DepthFirstSort {
  import Pigeonhole
  import opened Sequences
  import opened TopologicalSort

  datatype State = Unvisited | Visiting | Visited

  /** Every successor of order[i] stands before it. */
  ghost predicate SuccessorsFirst(adj: seq<seq<int>>, order: seq<int>) {
    forall i, w :: 0 <= i < |order| && 0 <= order[i] < |adj| && w in adj[order[i]] ==> w in order[..i]
  }

  /** path lists the nodes being visited, outermost first, each an edge on from the last. */
  ghost predicate OnPath(adj: seq<seq<int>>, path: seq<int>) {
    && InRange(|adj|, path)
    && forall i, j :: 0 <= i < |path| && 0 <= j < |path| && j == i + 1 ==> path[j] in adj[path[i]]
  }

  ghost predicate SearchState(adj: seq<seq<int>>, state: seq<State>, order: seq<int>, path: seq<int>) {
    && |state| == |adj| && InRange(|adj|, order) && Distinct(order)
    && SuccessorsFirst(adj, order) && OnPath(adj, path)
    && (forall v :: 0 <= v < |state| ==> (state[v] == Visited <==> v in order))
    && (forall v :: 0 <= v < |state| ==> (state[v] == Visiting <==> v in path))
  }

  ghost function Unseen(state: seq<State>): set<int> {
    set v | 0 <= v < |state| && state[v] == Unvisited
  }

  ghost predicate Represents(n: nat, edges: Edges, adj: seq<seq<int>>) {
    && |adj| == n
    && forall u, w :: 0 <= u < n ==> (w in adj[u] <==> (u, w) in edges)
  }

  ghost predicate MayEnter(adj: seq<seq<int>>, path: seq<int>, node: int) {
    path == [] || (0 <= path[|path| - 1] < |adj| && node in adj[path[|path| - 1]])
  }

  lemma EnterNode(adj: seq<seq<int>>, state: seq<State>, order: seq<int>, path: seq<int>, node: int)
    requires SearchState(adj, state, order, path)
    requires 0 <= node < |state| && state[node] == Unvisited && MayEnter(adj, path, node)
    ensures SearchState(adj, state[node := Visiting], order, path + [node])
  {
  }

  lemma LeaveNode(adj: seq<seq<int>>, state: seq<State>, order: seq<int>, path: seq<int>, node: int)
    requires SearchState(adj, state, order, path + [node]) && node !in path
    requires 0 <= node < |state| && forall w :: w in adj[node] ==> w in order
    ensures SearchState(adj, state[node := Visited], order + [node], path)
  {
    assert (path + [node])[|path|] == node && node in path + [node];
    var order' := order + [node];
    forall i, w | 0 <= i < |order'| && 0 <= order'[i] < |adj| && w in adj[order'[i]] ensures w in order'[..i] {
      assert order'[..i] == order[..i];
      if i == |order| { assert order[..i] == order; }
    }
    forall i | 0 <= i < |path| ensures 0 <= path[i] < |adj| {
      assert (path + [node])[i] == path[i];
    }
    forall i, j | 0 <= i < |path| && 0 <= j < |path| && j == i + 1 ensures path[j] in adj[path[i]] {
      assert (path + [node])[j] in adj[(path + [node])[i]];
    }
    forall v | 0 <= v < |state| ensures state[node := Visited][v] == Visiting <==> v in path {
      assert v in path + [node] <==> v in path || v == node;
    }
  }

  /** An edge from the innermost open node to an open node closes a cycle. */
  lemma BackEdge(n: nat, edges: Edges, adj: seq<seq<int>>, path: seq<int>, node: int, w: int)
    requires Represents(n, edges, adj) && OnPath(adj, path + [node])
    requires 0 <= node < n && w in adj[node] && w in path + [node]
    ensures HasCycle(edges)
  {
    var p := path + [node];
    var i :| 0 <= i < |p| && p[i] == w;
    var c := p[i..] + [w];
    forall k | 0 <= k < |c| - 1 ensures (c[k], c[k + 1]) in edges {
      assert c[k] == p[i + k];
      if k + 1 < |c| - 1 { assert c[k + 1] == p[i + k + 1] && p[i + k + 1] in adj[p[i + k]]; }
    }
    assert IsCycle(edges, c);
  }

  lemma AllFinished(n: nat, edges: Edges, adj: seq<seq<int>>, state: seq<State>, order: seq<int>)
    requires Represents(n, edges, adj) && ValidEdges(n, edges) && SearchState(adj, state, order, [])
    requires forall v :: 0 <= v < n ==> state[v] == Visited
    ensures |order| == n && IsTopological(n, edges, Reversed(order))
  {
    Pigeonhole.CountsRange(order, n);
    var r := Reversed(order);
    forall i, j | 0 <= i < n && 0 <= j < n && (r[i], r[j]) in edges ensures i < j {
      assert r[j] in adj[r[i]] && r[i] == order[n - 1 - i];
      assert r[j] in order[..n - 1 - i];
      var p :| 0 <= p < n - 1 - i && order[..n - 1 - i][p] == r[j];
      assert order[p] == order[n - 1 - j];
    }
  }

  class DFSTopoSort {
    var adj: seq<seq<int>>
    var state: seq<State>
    var order: seq<int>
    var hasCycle: bool

    constructor () {
      adj, state, order, hasCycle := [], [], [], false;
    }

    /** path is the chain of calls in progress. */
    method Dfs(node: int, ghost n: nat, ghost edges: Edges, ghost path: seq<int>)
      requires Represents(n, edges, adj) && ValidEdges(n, edges) && |state| == n && 0 <= node < n
      requires state[node] == Unvisited
      requires hasCycle ==> HasCycle(edges)
      requires !hasCycle ==> SearchState(adj, state, order, path) && MayEnter(adj, path, node)
      modifies `state, `order, `hasCycle
      ensures |state| == n && Unseen(state) <= Unseen(old(state))
      ensures hasCycle ==> HasCycle(edges)
      ensures !hasCycle ==> !old(hasCycle) && SearchState(adj, state, order, path)
      ensures !hasCycle ==> node in order && forall v :: v in old(order) ==> v in order
      decreases Unseen(state)
    {
      if hasCycle { return; }
      EnterNode(adj, state, order, path, node);
      assert node in Unseen(state);
      ghost var before := Unseen(state);
      state := state[node := Visiting];
      assert Unseen(state) == before - {node};
      for k := 0 to |adj[node]|
        invariant |state| == n && Unseen(state) <= before - {node}
        invariant hasCycle ==> HasCycle(edges)
        invariant !hasCycle ==> SearchState(adj, state, order, path + [node])
        invariant !hasCycle ==> forall v :: v in old(order) || v in adj[node][..k] ==> v in order
      {
        var neighbor := adj[node][k];
        assert neighbor in adj[node] && (node, neighbor) in edges;
        assert adj[node][..k + 1] == adj[node][..k] + [neighbor];
        if state[neighbor] == Visiting {
          if !hasCycle { BackEdge(n, edges, adj, path, node, neighbor); }
          hasCycle := true;
          return;
        }
        if state[neighbor] == Unvisited {
          Dfs(neighbor, n, edges, path + [node]);
        }
      }
      assert adj[node][..|adj[node]|] == adj[node];
      if !hasCycle {
        LeaveNode(adj, state, order, path, node);
      }
      ghost var unseen := Unseen(state);
      state := state[node := Visited];
      assert Unseen(state) == unseen - {node};
      order := order + [node];
      assert !hasCycle ==> SearchState(adj, state, order, path);
    }

    method Sort(n: nat, edges: Edges) returns (r: seq<int>)
      requires ValidEdges(n, edges)
      modifies this
      ensures IsAnswer(n, edges, r)
    {
      adj := BuildAdjacency(n, edges);
      state := seq(n, _ => Unvisited);
      order := [];
      hasCycle := false;
      forall u, w | 0 <= u < n ensures w in adj[u] <==> (u, w) in edges {
        AdjIsEdges(edges, u, w);
      }
      for i := 0 to n
        invariant Represents(n, edges, adj) && |state| == n
        invariant hasCycle ==> HasCycle(edges)
        invariant !hasCycle ==> SearchState(adj, state, order, [])
        invariant !hasCycle ==> forall v :: 0 <= v < i ==> v in order
      {
        if state[i] == Unvisited {
          Dfs(i, n, edges, []);
        }
      }
      if hasCycle { return []; }
      AllFinished(n, edges, adj, state, order);
      r := Reversed(order);
      TopologicalMeansAcyclic(n, edges, r);
    }
  }
}
