/** Segment tree in an array of 4n cells: point updates and range folds. */
module SegmentTree {
  import Powers

  // ----- The element operations -----

  /** op combines neighbouring ranges; add is what an update applies to one element. */
  datatype Ops<!T> = Ops(op: (T, T) -> T, add: (T, T) -> T, identity: T)

  ghost predicate AssociativeAt<T>(m: Ops<T>, x: T, y: T, z: T) {
    m.op(m.op(x, y), z) == m.op(x, m.op(y, z))
  }

  ghost predicate NeutralAt<T>(m: Ops<T>, x: T) {
    m.op(m.identity, x) == x == m.op(x, m.identity)
  }

  /** op is associative with a two-sided identity; it need not commute. */
  ghost predicate Lawful<T(!new)>(m: Ops<T>) {
    && (forall x, y, z {:trigger AssociativeAt(m, x, y, z)} :: AssociativeAt(m, x, y, z))
    && (forall x {:trigger NeutralAt(m, x)} :: NeutralAt(m, x))
  }

  /** The elements combined from left to right. */
  function Fold<T>(m: Ops<T>, a: seq<T>): T {
    if a == [] then m.identity else m.op(Fold(m, a[..|a| - 1]), a[|a| - 1])
  }

  /** The elements at positions that lie in both start..end and l..r, combined from left to right. */
  ghost function FoldWithin<T>(m: Ops<T>, a: seq<T>, start: int, end: int, l: int, r: int): T
    requires 0 <= start && end < |a|
    decreases end - start
  {
    if end < start then m.identity
    else if l <= end <= r then m.op(FoldWithin(m, a, start, end - 1, l, r), a[end])
    else FoldWithin(m, a, start, end - 1, l, r)
  }

  /** The part of a that the bounds l..r cover, whatever they are. */
  function Slice<T>(a: seq<T>, l: int, r: int): seq<T> {
    var from := if l > 0 then l else 0;
    var to := if r < |a| - 1 then r else |a| - 1;
    if from <= to then a[from..to + 1] else []
  }

  lemma SliceGrows<T>(a: seq<T>, end: int, l: int, r: int)
    requires 0 <= end < |a|
    ensures var shorter, longer := Slice(a[..end], l, r), Slice(a[..end + 1], l, r);
            if l <= end <= r then longer != [] && longer[..|longer| - 1] == shorter && longer[|longer| - 1] == a[end]
            else longer == shorter
  {
    var from := if l > 0 then l else 0;
    if l <= end <= r {
      var shorter, longer := Slice(a[..end], l, r), Slice(a[..end + 1], l, r);
      assert longer == a[from..end + 1];
      assert shorter == a[from..end];
    } else if r < end {
      assert from <= r ==> a[..end][from..r + 1] == a[..end + 1][from..r + 1];
    }
  }

  lemma {:induction false} FoldWithinIsFold<T>(m: Ops<T>, a: seq<T>, end: int, l: int, r: int)
    requires -1 <= end < |a|
    ensures FoldWithin(m, a, 0, end, l, r) == Fold(m, Slice(a[..end + 1], l, r))
    decreases end
  {
    if end >= 0 {
      FoldWithinIsFold(m, a, end - 1, l, r);
      SliceGrows(a, end, l, r);
    }
  }

  lemma WholeFold<T>(m: Ops<T>, a: seq<T>, l: int, r: int)
    ensures FoldWithin(m, a, 0, |a| - 1, l, r) == Fold(m, Slice(a, l, r))
  {
    FoldWithinIsFold(m, a, |a| - 1, l, r);
    assert a[..|a|] == a;
  }

  lemma {:induction false} FoldOutside<T>(m: Ops<T>, a: seq<T>, start: int, end: int, l: int, r: int)
    requires 0 <= start && end < |a| && (r < start || end < l)
    ensures FoldWithin(m, a, start, end, l, r) == m.identity
    decreases end - start
  {
    if start <= end { FoldOutside(m, a, start, end - 1, l, r); }
  }

  lemma {:induction false} FoldSplits<T(!new)>(m: Ops<T>, a: seq<T>, start: int, mid: int, end: int, l: int, r: int)
    requires 0 <= start <= mid <= end < |a|
    ensures Lawful(m) ==>
              FoldWithin(m, a, start, end, l, r)
              == m.op(FoldWithin(m, a, start, mid, l, r), FoldWithin(m, a, mid + 1, end, l, r))
    decreases end - mid
  {
    var left := FoldWithin(m, a, start, mid, l, r);
    if mid == end {
      assert Lawful(m) ==> NeutralAt(m, left);
    } else {
      FoldSplits(m, a, start, mid, end - 1, l, r);
      assert Lawful(m) ==> AssociativeAt(m, left, FoldWithin(m, a, mid + 1, end - 1, l, r), a[end]);
    }
  }

  // ----- The shape of the tree -----

  function Mid(start: int, end: int): (mid: int)
    requires 0 <= start < end
    ensures start <= mid < end
  {
    (start + end) / 2
  }

  /** Every cell used at or below a node that covers start..end lies within an array of that size. */
  ghost predicate Room(size: int, node: int, start: int, end: int)
    requires 0 < node && 0 <= start <= end
    decreases end - start
  {
    && node < size
    && (start < end ==> Room(size, 2 * node, start, Mid(start, end)) && Room(size, 2 * node + 1, Mid(start, end) + 1, end))
  }

  /** One past the last cell of the row that many levels below a node. */
  ghost function RowEnd(node: int, levels: nat): int
    decreases levels
  {
    if levels == 0 then node + 1 else RowEnd(2 * node + 1, levels - 1)
  }

  lemma {:induction false} RowEndRises(node: int, right: int, levels: nat)
    requires 0 < node <= right
    ensures node < RowEnd(node, levels) <= RowEnd(right, levels)
    decreases levels
  {
    if levels > 0 { RowEndRises(2 * node + 1, 2 * right + 1, levels - 1); }
  }

  lemma {:induction false} RowEndIsPower(row: nat, levels: nat)
    ensures RowEnd(Powers.Pow2(row + 1) - 1, levels) == Powers.Pow2(row + 1 + levels)
    decreases levels
  {
    if levels > 0 {
      assert Powers.Pow2(row + 2) == 2 * Powers.Pow2(row + 1);
      RowEndIsPower(row + 1, levels - 1);
    }
  }

  lemma {:induction false} RoomByLevel(size: int, node: int, start: int, end: int, levels: nat)
    requires 0 < node && 0 <= start <= end && end - start < Powers.Pow2(levels)
    requires RowEnd(node, levels) <= size
    ensures Room(size, node, start, end)
    decreases levels
  {
    RowEndRises(node, node, levels);
    if start < end {
      RowEndRises(2 * node, 2 * node + 1, levels - 1);
      RoomByLevel(size, 2 * node, start, Mid(start, end), levels - 1);
      RoomByLevel(size, 2 * node + 1, Mid(start, end) + 1, end, levels - 1);
    }
  }

  /** n fits in a full bottom row of fewer than 2n leaves. */
  lemma {:induction false} Levels(n: int) returns (levels: nat)
    requires n > 0
    ensures n <= Powers.Pow2(levels) < 2 * n
  {
    levels := 0;
    while Powers.Pow2(levels) < n
      invariant Powers.Pow2(levels) < 2 * n
      decreases n - Powers.Pow2(levels)
    {
      levels := levels + 1;
    }
  }

  /** An array of 4n cells has room for every node. */
  lemma FourTimesIsEnough(n: int)
    requires n > 0
    ensures Room(4 * n, 1, 0, n - 1)
  {
    var levels := Levels(n);
    RowEndIsPower(0, levels);
    assert Powers.Pow2(1) == 2 && Powers.Pow2(1 + levels) == 2 * Powers.Pow2(levels);
    RoomByLevel(4 * n, 1, 0, n - 1, levels);
  }

  /** Cell k belongs to the subtree of node. */
  ghost predicate InSubtree(node: int, k: int)
    requires node > 0
    decreases k
  {
    k >= node && (k == node || InSubtree(node, k / 2))
  }

  lemma {:induction false} ChildInSubtree(node: int, k: int)
    requires node > 0 && (InSubtree(2 * node, k) || InSubtree(2 * node + 1, k))
    ensures InSubtree(node, k) && k != node
    decreases k
  {
    if k == 2 * node || k == 2 * node + 1 {
      assert InSubtree(node, k / 2);
    } else {
      ChildInSubtree(node, k / 2);
    }
  }

  lemma {:induction false} ChildrenApart(node: int, k: int)
    requires node > 0
    ensures !(InSubtree(2 * node, k) && InSubtree(2 * node + 1, k))
    decreases k
  {
    if k > 2 * node + 1 {
      ChildrenApart(node, k / 2);
    }
  }

  // ----- Contents -----

  /** Leaves hold the elements start..end of a; every other node joins its two children. */
  ghost predicate Built<T>(m: Ops<T>, tree: seq<T>, node: int, start: int, end: int, a: seq<T>)
    requires 0 < node && 0 <= start <= end < |a|
    decreases end - start
  {
    && node < |tree|
    && if start == end then tree[node] == a[start]
       else
         var mid := Mid(start, end);
         && Built(m, tree, 2 * node, start, mid, a)
         && Built(m, tree, 2 * node + 1, mid + 1, end, a)
         && tree[node] == m.op(tree[2 * node], tree[2 * node + 1])
  }

  /** Each node holds the fold of the elements it covers. */
  lemma {:induction false} NodeIsFold<T(!new)>(
    m: Ops<T>, tree: seq<T>, node: int, start: int, end: int, a: seq<T>, l: int, r: int)
    requires 0 < node && l <= start <= end <= r && 0 <= start && end < |a|
    requires Built(m, tree, node, start, end, a)
    ensures Lawful(m) ==> tree[node] == FoldWithin(m, a, start, end, l, r)
    decreases end - start
  {
    if start == end {
      assert Lawful(m) ==> NeutralAt(m, a[start]);
    } else {
      var mid := Mid(start, end);
      NodeIsFold(m, tree, 2 * node, start, mid, a, l, r);
      NodeIsFold(m, tree, 2 * node + 1, mid + 1, end, a, l, r);
      FoldSplits(m, a, start, mid, end, l, r);
    }
  }

  /** The subtree of node has the same contents in both trees. */
  ghost predicate SameInside<T>(tree: seq<T>, tree': seq<T>, node: int)
    requires node > 0
  {
    |tree| == |tree'| && forall k {:trigger InSubtree(node, k)} :: 0 <= k < |tree| && InSubtree(node, k) ==> tree'[k] == tree[k]
  }

  /** Only cells of the subtree of node differ. */
  ghost predicate SameOutside<T>(tree: seq<T>, tree': seq<T>, node: int)
    requires node > 0
  {
    |tree| == |tree'| && forall k {:trigger InSubtree(node, k)} :: 0 <= k < |tree| && !InSubtree(node, k) ==> tree'[k] == tree[k]
  }

  /** A node's contents depend on its own cells and its own elements alone. */
  lemma {:induction false} BuiltKept<T>(
    m: Ops<T>, tree: seq<T>, tree': seq<T>, node: int, start: int, end: int, a: seq<T>, a': seq<T>)
    requires 0 < node && 0 <= start <= end < |a| == |a'|
    requires forall k :: start <= k <= end ==> a'[k] == a[k]
    ensures Built(m, tree, node, start, end, a) && SameInside(tree, tree', node) ==> Built(m, tree', node, start, end, a')
    decreases end - start
  {
    if Built(m, tree, node, start, end, a) && SameInside(tree, tree', node) {
      assert InSubtree(node, node);
      if start < end {
        var mid := Mid(start, end);
        InsideChildren(tree, tree', node);
        BuiltKept(m, tree, tree', 2 * node, start, mid, a, a');
        BuiltKept(m, tree, tree', 2 * node + 1, mid + 1, end, a, a');
        assert InSubtree(2 * node, 2 * node) && InSubtree(2 * node + 1, 2 * node + 1);
      }
    }
  }

  lemma InsideChildren<T>(tree: seq<T>, tree': seq<T>, node: int)
    requires node > 0 && SameInside(tree, tree', node)
    ensures SameInside(tree, tree', 2 * node) && SameInside(tree, tree', 2 * node + 1)
  {
    forall k | 0 <= k < |tree| && (InSubtree(2 * node, k) || InSubtree(2 * node + 1, k)) ensures tree'[k] == tree[k] {
      ChildInSubtree(node, k);
    }
  }

  /** Work on one child leaves the other child and everything outside the node alone. */
  lemma OutsideChild<T>(tree: seq<T>, tree': seq<T>, node: int, child: int, other: int)
    requires node > 0 && child > 0 && SameOutside(tree, tree', child)
    requires (child == 2 * node && other == 2 * node + 1) || (child == 2 * node + 1 && other == 2 * node)
    ensures SameInside(tree, tree', other) && SameOutside(tree, tree', node)
  {
    forall k | 0 <= k < |tree| && InSubtree(other, k) ensures tree'[k] == tree[k] {
      ChildrenApart(node, k);
      assert !InSubtree(child, k);
    }
    forall k | 0 <= k < |tree| && !InSubtree(node, k) ensures tree'[k] == tree[k] {
      if InSubtree(child, k) { ChildInSubtree(node, k); }
    }
  }

  lemma OutsideTwice<T>(t0: seq<T>, t1: seq<T>, t2: seq<T>, node: int)
    requires node > 0 && SameOutside(t0, t1, node) && SameOutside(t1, t2, node)
    ensures SameOutside(t0, t2, node)
  {
    forall k | 0 <= k < |t0| && !InSubtree(node, k) ensures t2[k] == t0[k] {
      assert t1[k] == t0[k];
    }
  }

  /** Storing in a node touches nothing below it and nothing outside it. */
  lemma StoreTouches<T>(tree: seq<T>, node: int, x: T)
    requires 0 < node < |tree|
    ensures SameInside(tree, tree[node := x], 2 * node) && SameInside(tree, tree[node := x], 2 * node + 1)
    ensures SameOutside(tree, tree[node := x], node)
  {
    var tree' := tree[node := x];
    forall k | 0 <= k < |tree| && (InSubtree(2 * node, k) || InSubtree(2 * node + 1, k)) ensures tree'[k] == tree[k] {
      ChildInSubtree(node, k);
    }
    assert InSubtree(node, node);
  }

  lemma BuiltFromChildren<T>(m: Ops<T>, tree: seq<T>, node: int, start: int, end: int, a: seq<T>, x: T, y: T)
    requires 0 < node && 0 <= start < end < |a| && 2 * node + 1 < |tree| && tree[2 * node] == x && tree[2 * node + 1] == y
    requires tree[node] == m.op(x, y)
    requires Built(m, tree, 2 * node, start, Mid(start, end), a)
    ensures Built(m, tree, 2 * node + 1, Mid(start, end) + 1, end, a) ==> Built(m, tree, node, start, end, a)
  {
  }

  lemma BuiltCells<T>(m: Ops<T>, tree: seq<T>, node: int, start: int, end: int, a: seq<T>)
    requires 0 < node && 0 <= start < end < |a|
    requires Built(m, tree, 2 * node + 1, Mid(start, end) + 1, end, a)
    ensures 2 * node + 1 < |tree|
  {
  }

  /** Storing the join of its children in a node completes it. */
  lemma JoinChildren<T>(m: Ops<T>, tree: seq<T>, tree': seq<T>, node: int, start: int, end: int, a: seq<T>)
    requires 0 < node && 0 <= start < end < |a| && 2 * node + 1 < |tree|
    requires tree' == tree[node := m.op(tree[2 * node], tree[2 * node + 1])]
    requires SameInside(tree, tree', 2 * node) && SameInside(tree, tree', 2 * node + 1)
    requires Built(m, tree, 2 * node, start, Mid(start, end), a)
    requires Built(m, tree, 2 * node + 1, Mid(start, end) + 1, end, a)
    ensures Built(m, tree', node, start, end, a)
  {
    BuiltKept(m, tree, tree', 2 * node, start, Mid(start, end), a, a);
    BuiltKept(m, tree, tree', 2 * node + 1, Mid(start, end) + 1, end, a, a);
    BuiltFromChildren(m, tree', node, start, end, a, tree[2 * node], tree[2 * node + 1]);
  }

  // ----- Queries -----

  /** The recursive range query over the cells. */
  function QueryAt<T>(m: Ops<T>, tree: seq<T>, node: int, start: int, end: int, l: int, r: int): T
    requires 0 < node && 0 <= start <= end && Room(|tree|, node, start, end)
    decreases end - start
  {
    if r < start || end < l then m.identity
    else if l <= start && end <= r then tree[node]
    else
      var mid := Mid(start, end);
      m.op(QueryAt(m, tree, 2 * node, start, mid, l, r), QueryAt(m, tree, 2 * node + 1, mid + 1, end, l, r))
  }

  /** Any other node is split, so it is not a leaf. */
  lemma QueryDescends<T>(m: Ops<T>, tree: seq<T>, node: int, start: int, end: int, a: seq<T>, l: int, r: int)
    requires 0 < node && 0 <= start <= end < |a| && Room(|tree|, node, start, end)
    requires Built(m, tree, node, start, end, a)
    requires start <= r && l <= end && !(l <= start && end <= r)
    ensures start < end
    ensures Room(|tree|, 2 * node, start, Mid(start, end)) && Room(|tree|, 2 * node + 1, Mid(start, end) + 1, end)
    ensures Built(m, tree, 2 * node, start, Mid(start, end), a)
    ensures Built(m, tree, 2 * node + 1, Mid(start, end) + 1, end, a)
    ensures QueryAt(m, tree, node, start, end, l, r)
         == m.op(QueryAt(m, tree, 2 * node, start, Mid(start, end), l, r),
                    QueryAt(m, tree, 2 * node + 1, Mid(start, end) + 1, end, l, r))
  {
  }

  lemma {:induction false} QueryFolds<T(!new)>(
    m: Ops<T>, tree: seq<T>, node: int, start: int, end: int, a: seq<T>, l: int, r: int)
    requires 0 < node && 0 <= start <= end < |a| && Room(|tree|, node, start, end)
    requires Built(m, tree, node, start, end, a)
    ensures Lawful(m) ==> QueryAt(m, tree, node, start, end, l, r) == FoldWithin(m, a, start, end, l, r)
    decreases end - start
  {
    if r < start || end < l {
      FoldOutside(m, a, start, end, l, r);
    } else if l <= start && end <= r {
      NodeIsFold(m, tree, node, start, end, a, l, r);
    } else {
      QueryDescends(m, tree, node, start, end, a, l, r);
      var mid := Mid(start, end);
      QueryFolds(m, tree, 2 * node, start, mid, a, l, r);
      QueryFolds(m, tree, 2 * node + 1, mid + 1, end, a, l, r);
      FoldSplits(m, a, start, mid, end, l, r);
    }
  }

  /** A query is the fold of the elements it covers, whatever bounds it is given. */
  lemma QueryIsFold<T(!new)>(m: Ops<T>, tree: seq<T>, a: seq<T>, l: int, r: int)
    requires a != [] && Room(|tree|, 1, 0, |a| - 1) && Built(m, tree, 1, 0, |a| - 1, a) && Lawful(m)
    ensures QueryAt(m, tree, 1, 0, |a| - 1, l, r) == Fold(m, Slice(a, l, r))
  {
    QueryFolds(m, tree, 1, 0, |a| - 1, a, l, r);
    WholeFold(m, a, l, r);
  }

  /** Folding over l..r is joining the folds over its two parts. */
  lemma {:induction false} BoundsSplit<T(!new)>(m: Ops<T>, a: seq<T>, end: int, l: int, k: int, r: int)
    requires Lawful(m) && -1 <= end < |a| && l <= k < r
    ensures FoldWithin(m, a, 0, end, l, r)
         == m.op(FoldWithin(m, a, 0, end, l, k), FoldWithin(m, a, 0, end, k + 1, r))
    decreases end
  {
    var first := FoldWithin(m, a, 0, end, l, k);
    if end < 0 {
      assert NeutralAt(m, first);
    } else if end <= k {
      FoldOutside(m, a, 0, end, k + 1, r);
      SameBounds(m, a, end, l, k, r);
      assert NeutralAt(m, first);
    } else {
      BoundsSplit(m, a, end - 1, l, k, r);
      if end <= r {
        assert AssociativeAt(m, first, FoldWithin(m, a, 0, end - 1, k + 1, r), a[end]);
      }
    }
  }

  lemma {:induction false} SameBounds<T>(m: Ops<T>, a: seq<T>, end: int, l: int, k: int, r: int)
    requires -1 <= end < |a| && end <= k < r
    ensures FoldWithin(m, a, 0, end, l, r) == FoldWithin(m, a, 0, end, l, k)
    decreases end
  {
    if end >= 0 { SameBounds(m, a, end - 1, l, k, r); }
  }

  // ----- Updates -----

  /** Where an update aimed at idx lands: the nearest position of the array. */
  function Nearest(idx: int, start: int, end: int): (k: int)
    requires start <= end
    ensures start <= k <= end
  {
    if idx < start then start else if idx > end then end else idx
  }

  /** The array after one update: one element changes. */
  function Bump<T>(m: Ops<T>, a: seq<T>, k: int, val: T): (b: seq<T>)
    requires 0 <= k < |a|
  {
    a[k := m.add(a[k], val)]
  }

  datatype Increment<T> = Increment(idx: int, val: T)

  /** The array after a whole run of updates. */
  function AfterAll<T>(m: Ops<T>, a: seq<T>, run: seq<Increment<T>>): (b: seq<T>)
    requires a != []
    ensures |b| == |a|
  {
    if run == [] then a
    else
      var b := AfterAll(m, a, run[..|run| - 1]);
      var last := run[|run| - 1];
      Bump(m, b, Nearest(last.idx, 0, |a| - 1), last.val)
  }

  /** x with every value aimed at position j of an array of n elements added to it, in order. */
  function Received<T>(m: Ops<T>, x: T, run: seq<Increment<T>>, j: int, n: int): T
    requires n > 0
  {
    if run == [] then x
    else
      var y := Received(m, x, run[..|run| - 1], j, n);
      var last := run[|run| - 1];
      if last.idx == j || (j == 0 && last.idx < 0) || (j == n - 1 && last.idx > n - 1) then m.add(y, last.val) else y
  }

  /** After any run of updates each element has received exactly the values aimed at it. */
  lemma {:induction false} ElementAfterRun<T>(m: Ops<T>, a: seq<T>, run: seq<Increment<T>>, j: int)
    requires 0 <= j < |a|
    ensures AfterAll(m, a, run)[j] == Received(m, a[j], run, j, |a|)
  {
    if run != [] { ElementAfterRun(m, a, run[..|run| - 1], j); }
  }

  ghost predicate CommutesAt<T>(m: Ops<T>, x: T, y: T) {
    m.op(x, y) == m.op(y, x) && m.add(x, y) == m.op(x, y)
  }

  /** Sums: op commutes and is the same operation as add. */
  ghost predicate Additive<T(!new)>(m: Ops<T>) {
    Lawful(m) && forall x, y {:trigger CommutesAt(m, x, y)} :: CommutesAt(m, x, y)
  }

  lemma MoveLeft<T(!new)>(m: Ops<T>, x: T, val: T, y: T)
    ensures Additive(m) ==> m.op(m.op(x, val), y) == m.op(m.op(x, y), val)
  {
    assert Additive(m) ==> AssociativeAt(m, x, val, y) && AssociativeAt(m, x, y, val) && CommutesAt(m, val, y);
  }

  lemma {:induction false} BumpWithin<T(!new)>(m: Ops<T>, a: seq<T>, k: int, val: T, end: int, l: int, r: int)
    requires 0 <= k < |a| && -1 <= end < |a|
    ensures var before, after := FoldWithin(m, a, 0, end, l, r), FoldWithin(m, Bump(m, a, k, val), 0, end, l, r);
            && (!(k <= end && l <= k <= r) ==> after == before)
            && (k <= end && l <= k <= r && Additive(m) ==> after == m.op(before, val))
    decreases end
  {
    if end >= 0 {
      BumpWithin(m, a, k, val, end - 1, l, r);
      var before := FoldWithin(m, a, 0, end - 1, l, r);
      if k == end {
        assert Additive(m) ==> CommutesAt(m, a[k], val) && AssociativeAt(m, before, a[k], val);
      } else {
        MoveLeft(m, before, val, a[end]);
      }
    }
  }

  /** For sums, an update moves exactly the queries that cover its element, by its value. */
  lemma UpdateMovesQueries<T(!new)>(m: Ops<T>, a: seq<T>, k: int, val: T, l: int, r: int)
    requires 0 <= k < |a|
    ensures var before, after := Fold(m, Slice(a, l, r)), Fold(m, Slice(Bump(m, a, k, val), l, r));
            && (!(l <= k <= r) ==> after == before)
            && (l <= k <= r && Additive(m) ==> after == m.op(before, val))
  {
    var b := Bump(m, a, k, val);
    BumpWithin(m, a, k, val, |a| - 1, l, r);
    WholeFold(m, a, l, r);
    WholeFold(m, b, l, r);
  }

  /** Adding to a leaf. */
  lemma BumpLeaf<T>(m: Ops<T>, tree: seq<T>, node: int, k: int, a: seq<T>, val: T)
    requires 0 < node < |tree| && 0 <= k < |a| && Built(m, tree, node, k, k, a)
    ensures var tree' := tree[node := m.add(tree[node], val)];
            Built(m, tree', node, k, k, Bump(m, a, k, val)) && SameOutside(tree, tree', node)
  {
    assert InSubtree(node, node);
  }

  /** Updating one child and joining again updates the node. */
  lemma BumpChild<T>(m: Ops<T>, t0: seq<T>, t1: seq<T>, node: int, start: int, end: int, left: bool, k: int, a: seq<T>, val: T)
    requires 0 < node < |t0| && 0 <= start < end < |a| && start <= k <= end && Built(m, t0, node, start, end, a)
    requires left ==> k <= Mid(start, end) && SameOutside(t0, t1, 2 * node)
                      && Built(m, t1, 2 * node, start, Mid(start, end), Bump(m, a, k, val))
    requires !left ==> k > Mid(start, end) && SameOutside(t0, t1, 2 * node + 1)
                       && Built(m, t1, 2 * node + 1, Mid(start, end) + 1, end, Bump(m, a, k, val))
    ensures 2 * node + 1 < |t1|
    ensures var t2 := t1[node := m.op(t1[2 * node], t1[2 * node + 1])];
            Built(m, t2, node, start, end, Bump(m, a, k, val)) && SameOutside(t0, t2, node)
  {
    var mid := Mid(start, end);
    var b := Bump(m, a, k, val);
    if left {
      OutsideChild(t0, t1, node, 2 * node, 2 * node + 1);
      BuiltKept(m, t0, t1, 2 * node + 1, mid + 1, end, a, b);
    } else {
      OutsideChild(t0, t1, node, 2 * node + 1, 2 * node);
      BuiltKept(m, t0, t1, 2 * node, start, mid, a, b);
    }
    BuiltCells(m, t1, node, start, end, b);
    var t2 := t1[node := m.op(t1[2 * node], t1[2 * node + 1])];
    StoreTouches(t1, node, t2[node]);
    JoinChildren(m, t1, t2, node, start, end, b);
    OutsideTwice(t0, t1, t2, node);
  }

  function Filled<T>(size: nat, x: T): (cells: seq<T>)
    ensures |cells| == size
  {
    if size == 0 then [] else Filled(size - 1, x) + [x]
  }

  class SegmentTree<!T(!new)> {
    var tree: seq<T>
    const n: int
    const m: Ops<T>
    ghost var arr: seq<T>

    ghost predicate Valid()
      reads this
    {
      && 0 < n == |arr| && |tree| == 4 * n && Room(|tree|, 1, 0, n - 1)
      && Built(m, tree, 1, 0, n - 1, arr)
    }

    constructor (a: seq<T>, m: Ops<T>)
      requires a != []
      ensures Valid() && arr == a && this.m == m
    {
      this.n, this.m, this.arr := |a|, m, a;
      this.tree := Filled(4 * |a|, m.identity);
      new;
      FourTimesIsEnough(n);
      Build(a, 1, 0, n - 1);
    }

    method Build(a: seq<T>, node: int, start: int, end: int)
      requires 0 < node && 0 <= start <= end < |a| && Room(|tree|, node, start, end)
      modifies this`tree
      ensures Built(m, tree, node, start, end, a) && SameOutside(old(tree), tree, node)
      decreases end - start
    {
      if start == end {
        assert InSubtree(node, node);
        tree := tree[node := a[start]];
        return;
      }
      ghost var t0 := tree;
      var mid := Mid(start, end);
      Build(a, 2 * node, start, mid);
      ghost var t1 := tree;
      Build(a, 2 * node + 1, mid + 1, end);
      ghost var t2 := tree;
      tree := tree[node := m.op(tree[2 * node], tree[2 * node + 1])];
      OutsideChild(t0, t1, node, 2 * node, 2 * node + 1);
      OutsideChild(t1, t2, node, 2 * node + 1, 2 * node);
      BuiltKept(m, t1, t2, 2 * node, start, mid, a, a);
      BuiltCells(m, t2, node, start, end, a);
      StoreTouches(t2, node, tree[node]);
      JoinChildren(m, t2, tree, node, start, end, a);
      OutsideTwice(t0, t1, t2, node);
      OutsideTwice(t0, t2, tree, node);
    }

    /** Adds val to one element; an index outside the array falls on its nearest element. */
    method Update(idx: int, val: T)
      requires Valid()
      modifies this
      ensures Valid()
      ensures 0 <= idx < n ==> arr == old(arr)[idx := m.add(old(arr)[idx], val)]
      ensures idx < 0 ==> arr == old(arr)[0 := m.add(old(arr)[0], val)]
      ensures idx >= n ==> arr == old(arr)[n - 1 := m.add(old(arr)[n - 1], val)]
      ensures arr == Bump(m, old(arr), Nearest(idx, 0, n - 1), val)
    {
      UpdateAt(1, 0, n - 1, idx, val, arr);
      arr := Bump(m, arr, Nearest(idx, 0, n - 1), val);
    }

    method UpdateAt(node: int, start: int, end: int, idx: int, val: T, ghost a: seq<T>)
      requires 0 < node && 0 <= start <= end < |a| && Built(m, tree, node, start, end, a)
      modifies this`tree
      ensures Built(m, tree, node, start, end, Bump(m, a, Nearest(idx, start, end), val))
      ensures SameOutside(old(tree), tree, node)
      decreases end - start
    {
      ghost var t0 := tree;
      if start == end {
        BumpLeaf(m, t0, node, start, a, val);
        tree := tree[node := m.add(tree[node], val)];
        return;
      }
      var mid := Mid(start, end);
      if idx <= mid {
        UpdateAt(2 * node, start, mid, idx, val, a);
      } else {
        UpdateAt(2 * node + 1, mid + 1, end, idx, val, a);
      }
      BumpChild(m, t0, tree, node, start, end, idx <= mid, Nearest(idx, start, end), a, val);
      tree := tree[node := m.op(tree[2 * node], tree[2 * node + 1])];
    }

    /** The fold of the elements from l to r, for any bounds. */
    function Query(l: int, r: int): (x: T)
      requires Valid()
      reads this
      ensures Lawful(m) ==> x == Fold(m, Slice(arr, l, r))
    {
      assert Lawful(m) ==> QueryAt(m, tree, 1, 0, n - 1, l, r) == Fold(m, Slice(arr, l, r)) by {
        if Lawful(m) { QueryIsFold(m, tree, arr, l, r); }
      }
      QueryAt(m, tree, 1, 0, n - 1, l, r)
    }

    /** A run of updates: each element receives exactly the values aimed at it, in order. */
    method UpdateAll(run: seq<Increment<T>>)
      requires Valid()
      modifies this
      ensures Valid() && |arr| == |old(arr)|
      ensures forall j :: 0 <= j < n ==> arr[j] == Received(m, old(arr)[j], run, j, n)
      decreases |run|
    {
      if run != [] {
        ghost var before := arr;
        UpdateAll(run[..|run| - 1]);
        var last := run[|run| - 1];
        Update(last.idx, last.val);
      }
    }

    /** The answers, from the laws of the operation: one element; two neighbouring ranges; and
        nothing covered. */
    lemma QueryOne(l: int)
      requires Valid() && Lawful(m) && 0 <= l < n
      ensures Query(l, l) == arr[l]
    {
      var one := Slice(arr, l, l);
      assert one == [arr[l]] && one[..0] == [];
      assert Fold(m, one[..0]) == m.identity && NeutralAt(m, arr[l]);
    }

    lemma QuerySplits(l: int, k: int, r: int)
      requires Valid() && Lawful(m) && l <= k < r
      ensures Query(l, r) == m.op(Query(l, k), Query(k + 1, r))
    {
      QueryFolds(m, tree, 1, 0, n - 1, arr, l, r);
      QueryFolds(m, tree, 1, 0, n - 1, arr, l, k);
      QueryFolds(m, tree, 1, 0, n - 1, arr, k + 1, r);
      BoundsSplit(m, arr, n - 1, l, k, r);
    }

    lemma QueryNothing(l: int, r: int)
      requires Valid() && (r < l || r < 0 || n <= l)
      ensures Lawful(m) ==> Query(l, r) == m.identity
    {
    }
  }
}
