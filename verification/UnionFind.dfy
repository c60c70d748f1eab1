/** Disjoint sets with path compression and union by rank. */
module UnionFind {
  import opened Powers
  import Pigeonhole

  type Pairs = seq<(int, int)>

  // ----- Specification: what the united pairs connect -----

  ghost predicate Joined(pairs: Pairs, a: int, b: int) {
    (a, b) in pairs || (b, a) in pairs
  }

  /** p leads from a to b through united pairs, in either direction. */
  ghost predicate IsPath(pairs: Pairs, p: seq<int>, a: int, b: int) {
    && |p| > 0 && p[0] == a && p[|p| - 1] == b
    && forall i, j :: 0 <= i < |p| && 0 <= j < |p| && j == i + 1 ==> Joined(pairs, p[i], p[j])
  }

  ghost predicate Linked(pairs: Pairs, a: int, b: int) {
    exists p :: IsPath(pairs, p, a, b)
  }

  ghost predicate InRange(n: nat, pairs: Pairs) {
    forall e :: e in pairs ==> 0 <= e.0 < n && 0 <= e.1 < n
  }

  ghost function LinkedTo(n: nat, pairs: Pairs, a: int): set<int> {
    set b | b in Pigeonhole.Range(n) && Linked(pairs, a, b)
  }

  /** The equivalence classes of the elements below n. */
  ghost function Classes(n: nat, pairs: Pairs): set<set<int>> {
    set a | a in Pigeonhole.Range(n) :: LinkedTo(n, pairs, a)
  }

  lemma LinkedSelf(pairs: Pairs, a: int)
    ensures Linked(pairs, a, a)
  {
    assert IsPath(pairs, [a], a, a);
  }

  lemma LinkedPair(pairs: Pairs, a: int, b: int)
    requires Joined(pairs, a, b)
    ensures Linked(pairs, a, b)
  {
    assert IsPath(pairs, [a, b], a, b);
  }

  lemma LinkedTrans(pairs: Pairs, a: int, b: int, c: int)
    requires Linked(pairs, a, b) && Linked(pairs, b, c)
    ensures Linked(pairs, a, c)
  {
    var p :| IsPath(pairs, p, a, b);
    var q :| IsPath(pairs, q, b, c);
    var r := p + q[1..];
    forall i, j | 0 <= i < |r| && 0 <= j < |r| && j == i + 1 ensures Joined(pairs, r[i], r[j]) {
      if i >= |p| - 1 {
        assert r[i] == q[i - |p| + 1] && r[j] == q[j - |p| + 1];
      }
    }
    assert IsPath(pairs, r, a, c);
  }

  lemma LinkedMore(pairs: Pairs, more: Pairs, a: int, b: int)
    requires Linked(pairs, a, b)
    ensures Linked(pairs + more, a, b)
  {
    var p :| IsPath(pairs, p, a, b);
    assert IsPath(pairs + more, p, a, b);
  }

  /** A labelling that agrees on every pair agrees along every path. */
  lemma {:induction false} PathKeepsLabel(pairs: Pairs, mark: seq<int>, p: seq<int>, a: int, b: int)
    requires InRange(|mark|, pairs) && 0 <= a < |mark|
    requires forall e :: e in pairs && 0 <= e.0 < |mark| && 0 <= e.1 < |mark| ==> mark[e.0] == mark[e.1]
    requires IsPath(pairs, p, a, b)
    ensures 0 <= b < |mark| && mark[a] == mark[b]
    decreases |p|
  {
    if |p| > 1 {
      var c := p[|p| - 2];
      assert IsPath(pairs, p[..|p| - 1], a, c);
      PathKeepsLabel(pairs, mark, p[..|p| - 1], a, c);
      assert Joined(pairs, p[|p| - 2], p[|p| - 1]);
    }
  }

  /** mark tells the classes of pairs apart. */
  ghost predicate Describes(mark: seq<int>, pairs: Pairs) {
    forall a, b {:trigger Linked(pairs, a, b)} ::
      0 <= a < |mark| && 0 <= b < |mark| ==> (mark[a] == mark[b] <==> Linked(pairs, a, b))
  }

  /** a and b share a class once those of x and y are merged. */
  ghost predicate Merged(mark: seq<int>, x: int, y: int, a: int, b: int)
    requires 0 <= x < |mark| && 0 <= y < |mark| && 0 <= a < |mark| && 0 <= b < |mark|
  {
    || mark[a] == mark[b]
    || (mark[a] == mark[x] && mark[b] == mark[y])
    || (mark[a] == mark[y] && mark[b] == mark[x])
  }

  /** Merging the classes of x and y is exactly what one more united pair does. */
  lemma MergeDescribes(pairs: Pairs, mark: seq<int>, mark': seq<int>, x: int, y: int)
    requires InRange(|mark|, pairs) && Describes(mark, pairs) && |mark'| == |mark|
    requires 0 <= x < |mark| && 0 <= y < |mark|
    requires forall a, b :: 0 <= a < |mark| && 0 <= b < |mark| ==>
               (mark'[a] == mark'[b] <==> Merged(mark, x, y, a, b))
    ensures Describes(mark', pairs + [(x, y)])
  {
    var pairs' := pairs + [(x, y)];
    forall e | e in pairs' ensures 0 <= e.0 < |mark| && 0 <= e.1 < |mark| && mark'[e.0] == mark'[e.1] {
      if e in pairs { LinkedPair(pairs, e.0, e.1); }
    }
    forall a, b | 0 <= a < |mark| && 0 <= b < |mark| ensures mark'[a] == mark'[b] <==> Linked(pairs', a, b) {
      if Linked(pairs', a, b) {
        var p :| IsPath(pairs', p, a, b);
        PathKeepsLabel(pairs', mark', p, a, b);
      }
      if mark'[a] == mark'[b] {
        assert (x, y) in pairs';
        LinkedPair(pairs', x, y);
        LinkedPair(pairs', y, x);
        if Linked(pairs, a, b) {
          LinkedMore(pairs, [(x, y)], a, b);
        } else if Linked(pairs, a, x) && Linked(pairs, y, b) {
          Bridge(pairs, (x, y), a, x, y, b);
        } else {
          assert Linked(pairs, a, y) && Linked(pairs, x, b);
          Bridge(pairs, (x, y), a, y, x, b);
        }
      }
    }
  }

  lemma Bridge(pairs: Pairs, e: (int, int), a: int, c: int, d: int, b: int)
    requires Linked(pairs, a, c) && Linked(pairs, d, b) && Linked(pairs + [e], c, d)
    ensures Linked(pairs + [e], a, b)
  {
    LinkedMore(pairs, [e], a, c);
    LinkedMore(pairs, [e], d, b);
    LinkedTrans(pairs + [e], a, c, d);
    LinkedTrans(pairs + [e], a, d, b);
  }

  // ----- The forest -----

  /** Parents are in range and ranks rise along every parent link. */
  ghost predicate ForestOk(parent: seq<int>, rank: seq<int>) {
    && |rank| == |parent|
    && (forall x :: 0 <= x < |parent| ==> 0 <= parent[x] < |parent|)
    && (forall x :: 0 <= x < |parent| ==> 0 <= rank[x])
    && (forall x {:trigger parent[x]} :: 0 <= x < |parent| && parent[x] != x ==> rank[x] < rank[parent[x]])
  }

  ghost function Height(rank: seq<int>): (h: int)
    ensures forall x :: 0 <= x < |rank| ==> rank[x] <= h
  {
    if rank == [] then 0
    else
      var h := Height(rank[..|rank| - 1]);
      assert forall x :: 0 <= x < |rank| - 1 ==> rank[x] == rank[..|rank| - 1][x];
      if rank[|rank| - 1] > h then rank[|rank| - 1] else h
  }

  ghost function Root(parent: seq<int>, rank: seq<int>, x: int): (r: int)
    requires ForestOk(parent, rank) && 0 <= x < |parent|
    ensures 0 <= r < |parent| && parent[r] == r
    ensures r == x <==> parent[x] == x
    ensures r != x ==> rank[x] < rank[r]
    decreases Height(rank) - rank[x]
  {
    if parent[x] == x then x else Root(parent, rank, parent[x])
  }

  ghost function Depth(parent: seq<int>, rank: seq<int>, x: int): nat
    requires ForestOk(parent, rank) && 0 <= x < |parent|
    decreases Height(rank) - rank[x]
  {
    if parent[x] == x then 0 else 1 + Depth(parent, rank, parent[x])
  }

  /** y is on the parent path from x, x included. */
  ghost predicate Above(parent: seq<int>, rank: seq<int>, x: int, y: int)
    requires ForestOk(parent, rank) && 0 <= x < |parent|
    decreases Height(rank) - rank[x]
  {
    x == y || (parent[x] != x && Above(parent, rank, parent[x], y))
  }

  ghost function Labels(parent: seq<int>, rank: seq<int>): seq<int>
    requires ForestOk(parent, rank)
  {
    seq(|parent|, x requires 0 <= x < |parent| => Root(parent, rank, x))
  }

  ghost function Roots(parent: seq<int>): set<int> {
    set x | x in Pigeonhole.Range(|parent|) && parent[x] == x
  }

  ghost function Tree(mark: seq<int>, r: int): set<int> {
    set x | x in Pigeonhole.Range(|mark|) && mark[x] == r
  }

  /** A root of rank k has at least 2^k elements below it. */
  ghost predicate Bushy(parent: seq<int>, rank: seq<int>, mark: seq<int>)
    requires |rank| == |parent|
  {
    forall r {:trigger Tree(mark, r)} :: 0 <= r < |parent| && parent[r] == r && rank[r] >= 0 ==>
      Pow2(rank[r]) <= |Tree(mark, r)|
  }

  ghost predicate Sound(parent: seq<int>, rank: seq<int>, components: int, pairs: Pairs) {
    && ForestOk(parent, rank) && InRange(|parent|, pairs)
    && Describes(Labels(parent, rank), pairs)
    && Bushy(parent, rank, Labels(parent, rank))
    && components == |Roots(parent)|
  }

  /** Pointing x at its root changes nobody's root. */
  lemma {:induction false} CompressRoot(parent: seq<int>, rank: seq<int>, x: int, y: int)
    requires ForestOk(parent, rank) && 0 <= x < |parent| && 0 <= y < |parent|
    ensures var parent' := parent[x := Root(parent, rank, x)];
            ForestOk(parent', rank) && Root(parent', rank, y) == Root(parent, rank, y)
    decreases Height(rank) - rank[y]
  {
    var parent' := parent[x := Root(parent, rank, x)];
    if parent[y] != y && y != x {
      CompressRoot(parent, rank, x, parent[y]);
    }
  }

  /** So the forest stays sound for the same pairs. */
  lemma CompressSound(parent: seq<int>, rank: seq<int>, components: int, pairs: Pairs, x: int)
    requires Sound(parent, rank, components, pairs) && 0 <= x < |parent|
    ensures var parent' := parent[x := Root(parent, rank, x)];
            Sound(parent', rank, components, pairs) && Labels(parent', rank) == Labels(parent, rank)
  {
    var parent' := parent[x := Root(parent, rank, x)];
    forall y | 0 <= y < |parent| ensures ForestOk(parent', rank) && Root(parent', rank, y) == Root(parent, rank, y) {
      CompressRoot(parent, rank, x, y);
    }
    assert Labels(parent', rank) == Labels(parent, rank);
    assert Roots(parent') == Roots(parent);
  }

  /** The surviving root's rank grows only when both trees had the same. */
  function RankUp(rank: seq<int>, rx: int, ry: int): seq<int>
    requires 0 <= rx < |rank| && 0 <= ry < |rank|
  {
    if rank[rx] == rank[ry] then rank[rx := rank[rx] + 1] else rank
  }

  /** Hanging root ry under root rx moves exactly the elements of ry. */
  lemma {:induction false} HangRoot(parent: seq<int>, rank: seq<int>, rx: int, ry: int, y: int)
    requires ForestOk(parent, rank) && 0 <= rx < |parent| && 0 <= ry < |parent| && 0 <= y < |parent|
    requires parent[rx] == rx && parent[ry] == ry && rx != ry && rank[ry] <= rank[rx]
    ensures ForestOk(parent[ry := rx], RankUp(rank, rx, ry))
    ensures Root(parent[ry := rx], RankUp(rank, rx, ry), y)
         == if Root(parent, rank, y) == ry then rx else Root(parent, rank, y)
    decreases Height(rank) - rank[y]
  {
    if parent[y] != y {
      HangRoot(parent, rank, rx, ry, parent[y]);
    }
  }

  lemma HangBushy(parent: seq<int>, rank: seq<int>, rx: int, ry: int, mark: seq<int>, mark': seq<int>)
    requires ForestOk(parent, rank) && 0 <= rx < |parent| && 0 <= ry < |parent|
    requires parent[rx] == rx && parent[ry] == ry && rx != ry && rank[ry] <= rank[rx]
    requires |mark| == |mark'| == |parent| && Bushy(parent, rank, mark)
    requires forall y :: 0 <= y < |parent| ==> mark'[y] == if mark[y] == ry then rx else mark[y]
    ensures Bushy(parent[ry := rx], RankUp(rank, rx, ry), mark')
  {
    var parent', rank' := parent[ry := rx], RankUp(rank, rx, ry);
    forall r | 0 <= r < |parent| && parent'[r] == r ensures Pow2(rank'[r]) <= |Tree(mark', r)| {
      if r == rx {
        assert Tree(mark', rx) == Tree(mark, rx) + Tree(mark, ry);
        assert Tree(mark, rx) !! Tree(mark, ry);
        assert Pow2(rank[rx]) <= |Tree(mark, rx)| && Pow2(rank[ry]) <= |Tree(mark, ry)|;
      } else {
        assert Tree(mark', r) == Tree(mark, r);
      }
    }
  }

  /** The marks after hanging ry under rx. */
  lemma HangMarks(parent: seq<int>, rank: seq<int>, rx: int, ry: int)
    requires ForestOk(parent, rank) && 0 <= rx < |parent| && 0 <= ry < |parent|
    requires parent[rx] == rx && parent[ry] == ry && rx != ry && rank[ry] <= rank[rx]
    ensures ForestOk(parent[ry := rx], RankUp(rank, rx, ry))
    ensures var mark, mark' := Labels(parent, rank), Labels(parent[ry := rx], RankUp(rank, rx, ry));
            && |mark| == |mark'| == |parent|
            && forall a :: 0 <= a < |parent| ==> mark'[a] == if mark[a] == ry then rx else mark[a]
  {
    HangRoot(parent, rank, rx, ry, rx);
    forall a | 0 <= a < |parent|
      ensures Root(parent[ry := rx], RankUp(rank, rx, ry), a)
           == if Root(parent, rank, a) == ry then rx else Root(parent, rank, a)
    {
      HangRoot(parent, rank, rx, ry, a);
    }
  }

  lemma HangDescribes(pairs: Pairs, mark: seq<int>, mark': seq<int>, x: int, y: int, rx: int, ry: int)
    requires InRange(|mark|, pairs) && Describes(mark, pairs) && |mark'| == |mark|
    requires 0 <= x < |mark| && 0 <= y < |mark|
    requires (rx == mark[x] && ry == mark[y]) || (rx == mark[y] && ry == mark[x])
    requires forall a :: 0 <= a < |mark| ==> mark'[a] == if mark[a] == ry then rx else mark[a]
    ensures Describes(mark', pairs + [(x, y)])
  {
    MergeDescribes(pairs, mark, mark', x, y);
  }

  lemma UniteSound(parent: seq<int>, rank: seq<int>, components: int, pairs: Pairs, x: int, y: int, rx: int, ry: int)
    requires Sound(parent, rank, components, pairs) && 0 <= x < |parent| && 0 <= y < |parent|
    requires 0 <= rx < |parent| && 0 <= ry < |parent|
    requires (rx == Root(parent, rank, x) && ry == Root(parent, rank, y))
          || (rx == Root(parent, rank, y) && ry == Root(parent, rank, x))
    requires rx != ry && rank[ry] <= rank[rx]
    ensures Sound(parent[ry := rx], RankUp(rank, rx, ry), components - 1, pairs + [(x, y)])
  {
    var parent', rank' := parent[ry := rx], RankUp(rank, rx, ry);
    HangMarks(parent, rank, rx, ry);
    var mark, mark' := Labels(parent, rank), Labels(parent', rank');
    HangBushy(parent, rank, rx, ry, mark, mark');
    HangDescribes(pairs, mark, mark', x, y, rx, ry);
    assert Roots(parent') == Roots(parent) - {ry};
  }

  /** Uniting two elements of one class changes nothing. */
  lemma SameSound(parent: seq<int>, rank: seq<int>, components: int, pairs: Pairs, x: int, y: int)
    requires Sound(parent, rank, components, pairs) && 0 <= x < |parent| && 0 <= y < |parent|
    requires Root(parent, rank, x) == Root(parent, rank, y)
    ensures Sound(parent, rank, components, pairs + [(x, y)])
  {
    var mark := Labels(parent, rank);
    MergeDescribes(pairs, mark, mark, x, y);
  }

  lemma RootsDescribe(parent: seq<int>, rank: seq<int>, components: int, pairs: Pairs, x: int, y: int)
    requires Sound(parent, rank, components, pairs) && 0 <= x < |parent| && 0 <= y < |parent|
    ensures Root(parent, rank, x) == Root(parent, rank, y) <==> Linked(pairs, x, y)
  {
    var mark := Labels(parent, rank);
    assert mark[x] == mark[y] <==> Linked(pairs, x, y);
  }

  // ----- Depth and number of components -----

  lemma {:induction false} DepthWithinRank(parent: seq<int>, rank: seq<int>, x: int)
    requires ForestOk(parent, rank) && 0 <= x < |parent|
    ensures rank[x] + Depth(parent, rank, x) <= rank[Root(parent, rank, x)]
    decreases Height(rank) - rank[x]
  {
    if parent[x] != x { DepthWithinRank(parent, rank, parent[x]); }
  }

  /** No path to a root is longer than log2 of the number of elements. */
  lemma DepthIsLogarithmic(parent: seq<int>, rank: seq<int>, components: int, pairs: Pairs, x: int)
    requires Sound(parent, rank, components, pairs) && 0 <= x < |parent|
    ensures Pow2(Depth(parent, rank, x)) <= |parent|
  {
    var r := Root(parent, rank, x);
    DepthWithinRank(parent, rank, x);
    Pow2Monotone(Depth(parent, rank, x), rank[r]);
    var tree := Tree(Labels(parent, rank), r);
    assert Pow2(rank[r]) <= |tree|;
    Pigeonhole.SubsetSize(tree, Pigeonhole.Range(|parent|));
  }

  lemma {:induction false} ImageSize(n: nat, pairs: Pairs, s: set<int>)
    requires forall a :: a in s ==> 0 <= a < n
    requires forall a, b :: a in s && b in s && a != b ==> !Linked(pairs, a, b)
    ensures |set a | a in s :: LinkedTo(n, pairs, a)| == |s|
  {
    if s != {} {
      var x := Pigeonhole.Member(s);
      var rest := s - {x};
      ImageSize(n, pairs, rest);
      var image := set a | a in rest :: LinkedTo(n, pairs, a);
      assert (set a | a in s :: LinkedTo(n, pairs, a)) == image + {LinkedTo(n, pairs, x)};
      LinkedSelf(pairs, x);
      assert x in LinkedTo(n, pairs, x);
      assert forall a :: a in rest ==> x !in LinkedTo(n, pairs, a);
    } else {
      assert (set a | a in s :: LinkedTo(n, pairs, a)) == {};
    }
  }

  /** The component counter is the number of equivalence classes. */
  lemma ComponentsAreClasses(parent: seq<int>, rank: seq<int>, components: int, pairs: Pairs)
    requires Sound(parent, rank, components, pairs)
    ensures components == |Classes(|parent|, pairs)|
  {
    var n, roots := |parent|, Roots(parent);
    var mark := Labels(parent, rank);
    forall a, b | a in roots && b in roots && a != b ensures !Linked(pairs, a, b) {
      assert mark[a] == a && mark[b] == b;
    }
    ImageSize(n, pairs, roots);
    var image := set a | a in roots :: LinkedTo(n, pairs, a);
    forall a | a in Pigeonhole.Range(n) ensures LinkedTo(n, pairs, a) in image {
      var r := mark[a];
      assert r in roots && mark[r] == r;
      assert LinkedTo(n, pairs, a) == LinkedTo(n, pairs, r) by {
        forall b | b in Pigeonhole.Range(n) ensures Linked(pairs, a, b) <==> Linked(pairs, r, b) {
          assert mark[a] == mark[b] <==> Linked(pairs, a, b);
          assert mark[r] == mark[b] <==> Linked(pairs, r, b);
        }
      }
    }
    assert Classes(n, pairs) == image;
  }

  // ----- The class -----

  function Identity(n: nat): (s: seq<int>)
    ensures |s| == n
  {
    seq(n, i => i)
  }

  function Zeros(n: nat): (s: seq<int>)
    ensures |s| == n
  {
    seq(n, _ => 0)
  }

  class UnionFind {
    var parent: seq<int>
    var rank: seq<int>
    var components: int
    ghost var pairs: Pairs

    ghost predicate Valid()
      reads this
    {
      Sound(parent, rank, components, pairs)
    }

    constructor (n: nat)
      ensures Valid() && |parent| == n && pairs == []
    {
      parent := Identity(n);
      rank := Zeros(n);
      components := n;
      pairs := [];
      new;
      AloneSound(n);
    }

    /** Path compression: everything on the path from x now points at the root. */
    method Find(x: int) returns (r: int)
      requires Valid() && 0 <= x < |parent|
      modifies `parent
      ensures Valid() && |parent| == |old(parent)|
      ensures Labels(parent, rank) == old(Labels(parent, rank))
      ensures r == old(Root(parent, rank, x))
      ensures forall y :: 0 <= y < |parent| ==>
                parent[y] == if old(Above(parent, rank, x, y)) then r else old(parent[y])
      decreases Height(rank) - rank[x]
    {
      if parent[x] != x {
        var p := Find(parent[x]);
        assert Labels(parent, rank)[x] == p;
        CompressSound(parent, rank, components, pairs, x);
        parent := parent[x := p];
      }
      return parent[x];
    }

    method FindBoth(x: int, y: int) returns (rx: int, ry: int)
      requires Valid() && 0 <= x < |parent| && 0 <= y < |parent|
      modifies `parent
      ensures Valid() && |parent| == |old(parent)|
      ensures rx == Root(parent, rank, x) && ry == Root(parent, rank, y)
      ensures rx == ry <==> Linked(pairs, x, y)
    {
      rx := Find(x);
      assert Labels(parent, rank)[x] == rx;
      ry := Find(y);
      assert Labels(parent, rank)[x] == rx && Labels(parent, rank)[y] == ry;
      RootsDescribe(parent, rank, components, pairs, x, y);
    }

    method Unite(x: int, y: int) returns (merged: bool)
      requires Valid() && 0 <= x < |parent| && 0 <= y < |parent|
      modifies this
      ensures Valid() && |parent| == |old(parent)| && pairs == old(pairs) + [(x, y)]
      ensures merged == !Linked(old(pairs), x, y)
      ensures components == old(components) - (if merged then 1 else 0)
    {
      var rx, ry := FindBoth(x, y);
      merged := rx != ry;
      if merged {
        if rank[rx] < rank[ry] { rx, ry := ry, rx; }
        UniteSound(parent, rank, components, pairs, x, y, rx, ry);
        parent, rank, components := parent[ry := rx], RankUp(rank, rx, ry), components - 1;
      } else {
        SameSound(parent, rank, components, pairs, x, y);
      }
      pairs := pairs + [(x, y)];
    }

    method Connected(x: int, y: int) returns (r: bool)
      requires Valid() && 0 <= x < |parent| && 0 <= y < |parent|
      modifies `parent
      ensures Valid() && |parent| == |old(parent)|
      ensures r == Linked(pairs, x, y)
    {
      var rx, ry := FindBoth(x, y);
      return rx == ry;
    }

    method NumComponents() returns (r: int)
      requires Valid()
      ensures r == |Classes(|parent|, pairs)|
    {
      ComponentsAreClasses(parent, rank, components, pairs);
      return components;
    }
  }

  lemma AloneSound(n: nat)
    ensures Sound(Identity(n), Zeros(n), n, [])
  {
    var parent, rank := Identity(n), Zeros(n);
    var mark := Labels(parent, rank);
    AloneDescribes(n, mark);
    forall r | 0 <= r < n ensures Pow2(rank[r]) <= |Tree(mark, r)| {
      assert Tree(mark, r) == {r};
    }
    assert Roots(parent) == Pigeonhole.Range(n);
  }

  lemma AloneDescribes(n: nat, mark: seq<int>)
    requires |mark| == n && forall a :: 0 <= a < n ==> mark[a] == a
    ensures Describes(mark, [])
  {
    forall a, b | 0 <= a < n && 0 <= b < n ensures mark[a] == mark[b] <==> Linked([], a, b) {
      if Linked([], a, b) {
        var p :| IsPath([], p, a, b);
        PathKeepsLabel([], mark, p, a, b);
      }
      LinkedSelf([], a);
    }
  }

  // ----- Applications -----

  /** Unites the ends of edge k, the edges before it being united already. */
  method UniteEdge(uf: UnionFind, edges: Pairs, k: int) returns (merged: bool)
    requires 0 <= k < |edges| && uf.Valid() && uf.pairs == edges[..k] && InRange(|uf.parent|, edges)
    modifies uf
    ensures uf.Valid() && |uf.parent| == |old(uf.parent)| && uf.pairs == edges[..k + 1]
    ensures merged == !Redundant(edges, k)
  {
    assert edges[k] in edges;
    var (u, v) := edges[k];
    merged := uf.Unite(u, v);
    assert edges[..k + 1] == edges[..k] + [edges[k]];
  }

  method CountComponents(n: nat, edges: Pairs) returns (r: int)
    requires InRange(n, edges)
    ensures r == |Classes(n, edges)|
  {
    var uf := new UnionFind(n);
    for k := 0 to |edges|
      invariant uf.Valid() && |uf.parent| == n && uf.pairs == edges[..k]
    {
      var _ := UniteEdge(uf, edges, k);
    }
    assert edges[..|edges|] == edges;
    r := uf.NumComponents();
  }

  /** The edges before edges[k] already connect its ends. */
  ghost predicate Redundant(edges: Pairs, k: int)
    requires 0 <= k < |edges|
  {
    Linked(edges[..k], edges[k].0, edges[k].1)
  }

  ghost predicate NoneRedundant(edges: Pairs, k: int)
    requires 0 <= k <= |edges|
  {
    forall j {:trigger Redundant(edges, j)} :: 0 <= j < k ==> !Redundant(edges, j)
  }

  ghost predicate FirstRedundant(edges: Pairs, k: int) {
    0 <= k < |edges| && Redundant(edges, k) && NoneRedundant(edges, k)
  }

  method FindRedundantConnection(edges: Pairs) returns (u: int, v: int)
    requires InRange(|edges| + 1, edges)
    ensures (exists k :: FirstRedundant(edges, k) && (u, v) == edges[k])
         || ((u, v) == (-1, -1) && NoneRedundant(edges, |edges|))
  {
    var n := |edges|;
    var uf := new UnionFind(n + 1);
    for k := 0 to |edges|
      invariant uf.Valid() && |uf.parent| == n + 1 && uf.pairs == edges[..k]
      invariant NoneRedundant(edges, k)
    {
      var merged := UniteEdge(uf, edges, k);
      if !merged {
        assert FirstRedundant(edges, k);
        return edges[k].0, edges[k].1;
      }
    }
    return -1, -1;
  }
}
