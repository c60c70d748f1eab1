/** Largest rectangle in a histogram with a stack of rising bars. */
module Histogram {
  import opened Sequences

  // ----- Specification -----

  /** A rectangle of height k over bars l..r, both included, stays inside the histogram. */
  ghost predicate Fits(h: seq<int>, l: int, r: int, k: int) {
    0 <= l <= r < |h| && k >= 0 && forall i :: l <= i <= r ==> k <= h[i]
  }

  ghost predicate Achieved(h: seq<int>, v: int) {
    v == 0 || exists l, r, k :: Fits(h, l, r, k) && k * (r - l + 1) == v
  }

  /** v is the area of the largest rectangle, 0 when there is none. */
  ghost predicate IsLargest(h: seq<int>, v: int) {
    Achieved(h, v) && forall l, r, k :: Fits(h, l, r, k) ==> k * (r - l + 1) <= v
  }

  // ----- Bars leaving the stack -----

  /** A bar leaving the stack, with the bars that bound its width on either side. */
  datatype Pop = Pop(bar: int, left: int, right: int)

  /** On the right, the nearest lower bar; on the left, the nearest bar that is no higher. */
  ghost predicate PopOk(h: seq<int>, p: Pop) {
    && -1 <= p.left < p.bar < p.right <= |h|
    && (forall i :: p.left < i < p.bar ==> h[i] > h[p.bar])
    && (forall i :: p.bar < i < p.right ==> h[i] >= h[p.bar])
    && (p.left == -1 || h[p.left] <= h[p.bar])
    && (p.right == |h| || h[p.right] < h[p.bar])
  }

  function PopArea(h: seq<int>, p: Pop): int
    requires 0 <= p.bar < |h|
  {
    h[p.bar] * (p.right - p.left - 1)
  }

  /** The bar's own rectangle reaches as far as its height allows in both directions. */
  ghost predicate FullExtent(h: seq<int>, p: Pop)
    requires PopOk(h, p)
  {
    forall l, r :: Fits(h, l, r, h[p.bar]) && l <= p.bar <= r ==> p.left < l && r < p.right
  }

  /** The width used for a bar is its full extent exactly when no equal bar stops it on the left. */
  lemma FullUnlessEqualBar(h: seq<int>, p: Pop)
    requires PopOk(h, p) && NonNegative(h)
    ensures FullExtent(h, p) <==> (p.left == -1 || h[p.left] != h[p.bar])
  {
    if p.left == -1 || h[p.left] != h[p.bar] {
      assert FullExtent(h, p);
    } else {
      assert Fits(h, p.left, p.bar, h[p.bar]);
    }
  }

  /** A bar's bounds are determined by the histogram. */
  lemma PopUnique(h: seq<int>, p: Pop, q: Pop)
    requires PopOk(h, p) && PopOk(h, q) && p.bar == q.bar
    ensures p == q
  {
  }

  /** Two equal bars: the second is given width one although it extends over both. */
  lemma EqualBarsStopEarly(p: Pop)
    requires PopOk([1, 1], p) && p.bar == 1
    ensures p == Pop(1, 0, 2) && !FullExtent([1, 1], p)
  {
    PopUnique([1, 1], p, Pop(1, 0, 2));
    FullUnlessEqualBar([1, 1], p);
  }

  // ----- Why the popped bars are enough -----

  /** b is the leftmost lowest bar of l..r. */
  ghost predicate Leads(h: seq<int>, b: int, l: int, r: int) {
    && 0 <= l <= b <= r < |h|
    && (forall i :: l <= i < b ==> h[i] > h[b])
    && (forall i :: b < i <= r ==> h[i] >= h[b])
  }

  lemma {:induction false} LeftmostLowest(h: seq<int>, l: int, r: int) returns (b: int)
    requires 0 <= l <= r < |h|
    ensures Leads(h, b, l, r)
    decreases r - l
  {
    if l == r {
      b := l;
    } else {
      b := LeftmostLowest(h, l, r - 1);
      if h[r] < h[b] {
        assert forall i :: l <= i < r ==> h[i] >= h[b];
        b := r;
      }
    }
  }

  lemma Grow(k: int, k': int, w: int, w': int)
    requires 0 <= k <= k' && 0 <= w <= w'
    ensures k * w <= k' * w'
  {
    assert k * w <= k' * w;
    assert k' * w <= k' * w';
  }

  /** A popped bar accounts for every rectangle it limits as the leftmost lowest bar. */
  lemma PopCovers(h: seq<int>, p: Pop, l: int, r: int, k: int)
    requires PopOk(h, p) && Leads(h, p.bar, l, r) && Fits(h, l, r, k)
    ensures k * (r - l + 1) <= PopArea(h, p)
  {
    assert l > p.left;
    assert r < p.right;
    assert k <= h[p.bar];
    Grow(k, h[p.bar], r - l + 1, p.right - p.left - 1);
  }

  /** v is the largest area among the pops, or 0. */
  ghost predicate BestOf(h: seq<int>, pops: seq<Pop>, v: int) {
    && v >= 0 && Achieved(h, v)
    && forall t :: 0 <= t < |pops| ==> PopOk(h, pops[t]) && PopArea(h, pops[t]) <= v
  }

  ghost predicate Popped(pops: seq<Pop>, b: int) {
    exists t :: 0 <= t < |pops| && pops[t].bar == b
  }

  lemma RecordPop(h: seq<int>, pops: seq<Pop>, v: int, p: Pop)
    requires NonNegative(h) && BestOf(h, pops, v) && PopOk(h, p)
    ensures BestOf(h, pops + [p], if PopArea(h, p) > v then PopArea(h, p) else v)
  {
    assert Fits(h, p.left + 1, p.right - 1, h[p.bar]);
  }

  /** Once every bar of positive height has been popped, the best pop is the best rectangle. */
  lemma AllPoppedIsLargest(h: seq<int>, pops: seq<Pop>, v: int)
    requires BestOf(h, pops, v)
    requires forall b {:trigger Popped(pops, b)} :: 0 <= b < |h| && h[b] > 0 ==> Popped(pops, b)
    ensures IsLargest(h, v)
  {
    forall l, r, k | Fits(h, l, r, k) ensures k * (r - l + 1) <= v {
      if k == 0 {
        assert k * (r - l + 1) == 0;
      } else {
        var b := LeftmostLowest(h, l, r);
        assert Popped(pops, b);
        var t :| 0 <= t < |pops| && pops[t].bar == b;
        PopCovers(h, pops[t], l, r, k);
      }
    }
  }

  // ----- When every width is the full extent -----

  ghost predicate AllFull(h: seq<int>, pops: seq<Pop>) {
    forall t :: 0 <= t < |pops| ==> PopOk(h, pops[t]) && FullExtent(h, pops[t])
  }

  /** Two bars of the same positive height with nothing lower between them. */
  ghost predicate EqualPair(h: seq<int>, i: int, j: int) {
    0 <= i < j < |h| && h[i] == h[j] > 0 && forall k :: i < k < j ==> h[k] >= h[i]
  }

  /** Over a whole run, by the heights alone: every width used is the bar's full extent if and
      only if there is no such pair. */
  lemma AllFullUnlessEqualPair(h: seq<int>, pops: seq<Pop>)
    requires NonNegative(h) && PositivePops(h, pops)
    requires forall b {:trigger Popped(pops, b)} :: 0 <= b < |h| && h[b] > 0 ==> Popped(pops, b)
    ensures AllFull(h, pops) <==> !exists i, j :: EqualPair(h, i, j)
  {
    if i, j :| EqualPair(h, i, j) {
      assert Popped(pops, j);
      var t :| 0 <= t < |pops| && pops[t].bar == j;
      var p := pops[t];
      assert PopOk(h, p) && p.left >= i && h[p.left] >= h[j];
      FullUnlessEqualBar(h, p);
    } else {
      forall t | 0 <= t < |pops| ensures PopOk(h, pops[t]) && FullExtent(h, pops[t]) {
        var p := pops[t];
        assert !EqualPair(h, p.left, p.bar);
        FullUnlessEqualBar(h, p);
      }
    }
  }

  /** Only bars of positive height are popped. */
  ghost predicate PositivePops(h: seq<int>, pops: seq<Pop>) {
    forall t :: 0 <= t < |pops| ==> PopOk(h, pops[t]) && h[pops[t].bar] > 0
  }

  // ----- The stack -----

  /** The index below position t of the stack; -1 at the bottom. */
  function Below(stack: seq<int>, t: int): int
    requires 0 <= t <= |stack|
  {
    if t == 0 then -1 else stack[t - 1]
  }

  /** The bar at position t is no lower than the one below it, and lower than all between. */
  ghost predicate StackAt(h: seq<int>, stack: seq<int>, t: int)
    requires 0 <= t < |stack|
  {
    && -1 <= Below(stack, t) < stack[t] < |h|
    && (t > 0 ==> 0 <= stack[t - 1] && h[stack[t - 1]] <= h[stack[t]])
    && (forall b :: Below(stack, t) < b < stack[t] ==> h[b] > h[stack[t]])
  }

  /** Bars rise along the stack. */
  ghost predicate Rising(h: seq<int>, stack: seq<int>) {
    forall t {:trigger StackAt(h, stack, t)} :: 0 <= t < |stack| ==> StackAt(h, stack, t)
  }

  lemma {:induction false} TopIsHighest(h: seq<int>, stack: seq<int>, t: int)
    requires 0 <= t < |stack| && Rising(h, stack)
    ensures 0 <= stack[t] < |h| && 0 <= stack[|stack| - 1] < |h|
    ensures h[stack[t]] <= h[stack[|stack| - 1]]
    decreases |stack| - t
  {
    assert StackAt(h, stack, t);
    if t + 1 < |stack| {
      assert StackAt(h, stack, t + 1);
      TopIsHighest(h, stack, t + 1);
    }
  }

  /** The bars already dropped above the top: higher than the bar coming in, and no lower
      than the top. */
  ghost predicate Gap(h: seq<int>, stack: seq<int>, i: int, incoming: int)
    requires 0 <= i <= |h|
  {
    var top := Below(stack, |stack|);
    && -1 <= top < i && (stack != [] ==> top >= 0)
    && (forall b :: top < b < i ==> h[b] > incoming)
    && (forall b :: top < b < i && top >= 0 ==> h[b] >= h[top])
  }

  lemma PopTop(h: seq<int>, stack: seq<int>, i: int, incoming: int)
    requires 0 <= i <= |h| && stack != [] && Rising(h, stack) && Gap(h, stack, i, incoming)
    requires i < |h| ==> h[i] == incoming
    requires h[stack[|stack| - 1]] > incoming
    ensures var rest := stack[..|stack| - 1];
            && PopOk(h, Pop(stack[|stack| - 1], Below(rest, |rest|), i))
            && Rising(h, rest) && Gap(h, rest, i, incoming)
  {
    var t := |stack| - 1;
    var rest := stack[..t];
    assert StackAt(h, stack, t);
    assert Below(rest, |rest|) == Below(stack, t);
    forall u | 0 <= u < t ensures StackAt(h, rest, u) {
      assert StackAt(h, stack, u);
      assert Below(rest, u) == Below(stack, u);
    }
  }

  lemma PushBar(h: seq<int>, stack: seq<int>, i: int)
    requires 0 <= i < |h| && Rising(h, stack) && Gap(h, stack, i, h[i])
    requires stack != [] ==> h[stack[|stack| - 1]] <= h[i]
    ensures Rising(h, stack + [i])
  {
    var stack' := stack + [i];
    forall u | 0 <= u < |stack'| ensures StackAt(h, stack', u) {
      assert Below(stack', u) == Below(stack, u);
      if u < |stack| { assert StackAt(h, stack, u); }
    }
  }

  /** Every bar before i is on the stack or has been popped. */
  ghost predicate Accounted(stack: seq<int>, pops: seq<Pop>, i: int) {
    forall b {:trigger Popped(pops, b)} :: 0 <= b < i && b !in stack ==> Popped(pops, b)
  }

  lemma AccountPop(stack: seq<int>, pops: seq<Pop>, i: int, p: Pop)
    requires Accounted(stack, pops, i) && stack != [] && p.bar == stack[|stack| - 1]
    ensures Accounted(stack[..|stack| - 1], pops + [p], i)
  {
    var rest, pops' := stack[..|stack| - 1], pops + [p];
    assert stack == rest + [p.bar];
    forall b | 0 <= b < i && b !in rest ensures Popped(pops', b) {
      if b == p.bar {
        assert pops'[|pops|].bar == b;
      } else {
        assert Popped(pops, b);
        var t :| 0 <= t < |pops| && pops[t].bar == b;
        assert pops'[t].bar == b;
      }
    }
  }

  /** When a bar of height 0 stops the popping, only bars of height 0 are left on the stack. */
  lemma Drained(h: seq<int>, stack: seq<int>, pops: seq<Pop>, v: int)
    requires Rising(h, stack) && Accounted(stack, pops, |h|) && BestOf(h, pops, v)
    requires stack != [] ==> 0 <= stack[|stack| - 1] < |h| && h[stack[|stack| - 1]] <= 0
    ensures IsLargest(h, v)
    ensures forall b {:trigger Popped(pops, b)} :: 0 <= b < |h| && h[b] > 0 ==> Popped(pops, b)
  {
    forall b | 0 <= b < |h| && h[b] > 0 ensures Popped(pops, b) {
      if b in stack {
        var t :| 0 <= t < |stack| && stack[t] == b;
        TopIsHighest(h, stack, t);
      }
    }
    AllPoppedIsLargest(h, pops, v);
  }

  // ----- The algorithm -----

  /** The bars before i have been dealt with: on the stack, or popped and accounted for. */
  ghost predicate Dealt(h: seq<int>, stack: seq<int>, pops: seq<Pop>, v: int, i: int) {
    && |pops| + |stack| == i && Rising(h, stack) && Accounted(stack, pops, i)
    && BestOf(h, pops, v) && PositivePops(h, pops)
  }

  /** In the middle of popping for a bar of height `incoming` at i. */
  ghost predicate Popping(h: seq<int>, stack: seq<int>, pops: seq<Pop>, v: int, i: int, incoming: int)
    requires 0 <= i <= |h|
  {
    Dealt(h, stack, pops, v, i) && Gap(h, stack, i, incoming)
  }

  lemma StartPopping(h: seq<int>, stack: seq<int>, pops: seq<Pop>, v: int, i: int, incoming: int)
    requires 0 <= i <= |h|
    ensures Dealt(h, stack, pops, v, i) && Below(stack, |stack|) == i - 1 ==> Popping(h, stack, pops, v, i, incoming)
  {
  }

  /** One bar popped. */
  lemma PopStep(h: seq<int>, stack: seq<int>, pops: seq<Pop>, v: int, i: int, incoming: int)
    requires NonNegative(h) && 0 <= i <= |h| && stack != [] && 0 <= stack[|stack| - 1] < |h|
    requires h[stack[|stack| - 1]] > incoming >= 0 && (i < |h| ==> h[i] == incoming)
    ensures var p := Pop(stack[|stack| - 1], Below(stack[..|stack| - 1], |stack| - 1), i);
            Popping(h, stack, pops, v, i, incoming) ==>
              Popping(h, stack[..|stack| - 1], pops + [p], if PopArea(h, p) > v then PopArea(h, p) else v, i, incoming)
  {
    if Popping(h, stack, pops, v, i, incoming) {
      var p := Pop(stack[|stack| - 1], Below(stack[..|stack| - 1], |stack| - 1), i);
      PopTop(h, stack, i, incoming);
      AccountPop(stack, pops, i, p);
      RecordPop(h, pops, v, p);
    }
  }

  /** Bar i pushed. */
  lemma PushStep(h: seq<int>, stack: seq<int>, pops: seq<Pop>, v: int, i: int)
    requires 0 <= i < |h|
    requires stack != [] ==> 0 <= stack[|stack| - 1] < |h| && h[stack[|stack| - 1]] <= h[i]
    ensures Popping(h, stack, pops, v, i, h[i]) ==> Dealt(h, stack + [i], pops, v, i + 1)
  {
    if Popping(h, stack, pops, v, i, h[i]) {
      PushBar(h, stack, i);
      forall b | 0 <= b < i + 1 && b !in stack + [i] ensures Popped(pops, b) {
        assert b !in stack && b != i;
      }
    }
  }

  /** What the run has found. */
  ghost predicate Answer(h: seq<int>, pops: seq<Pop>, v: int) {
    && IsLargest(h, v) && BestOf(h, pops, v) && PositivePops(h, pops)
    && (forall b {:trigger Popped(pops, b)} :: 0 <= b < |h| && h[b] > 0 ==> Popped(pops, b))
  }

  /** After the end marker's pops. */
  lemma LastStep(h: seq<int>, stack: seq<int>, pops: seq<Pop>, v: int)
    requires stack != [] ==> 0 <= stack[|stack| - 1] < |h| && h[stack[|stack| - 1]] <= 0
    ensures Popping(h, stack, pops, v, |h|, 0) ==> Answer(h, pops, v)
  {
    if Popping(h, stack, pops, v, |h|, 0) { Drained(h, stack, pops, v); }
  }

  /** Pops every bar higher than the one at i, keeping the largest area. */
  method PopHigher(heights: seq<int>, stack0: seq<int>, maxArea0: int, i: int, current: int, ghost pops0: seq<Pop>)
    returns (stack: seq<int>, maxArea: int, ghost pops: seq<Pop>)
    requires NonNegative(heights) && 0 <= i <= |heights| && current >= 0
    requires i < |heights| ==> heights[i] == current
    requires Popping(heights, stack0, pops0, maxArea0, i, current)
    ensures Popping(heights, stack, pops, maxArea, i, current)
    ensures stack != [] ==> 0 <= stack[|stack| - 1] < |heights| && heights[stack[|stack| - 1]] <= current
  {
    stack, maxArea, pops := stack0, maxArea0, pops0;
    while |stack| > 0 && heights[stack[|stack| - 1]] > current
      invariant stack != [] ==> 0 <= stack[|stack| - 1] < i
      invariant Popping(heights, stack, pops, maxArea, i, current)
      decreases |stack|
    {
      PopStep(heights, stack, pops, maxArea, i, current);
      var top := stack[|stack| - 1];
      ghost var p := Pop(top, Below(stack[..|stack| - 1], |stack| - 1), i);
      pops := pops + [p];
      var height := heights[top];
      stack := stack[..|stack| - 1];
      var width := if stack == [] then i else i - stack[|stack| - 1] - 1;
      var area := height * width;
      assert area == PopArea(heights, p);
      maxArea := if area > maxArea then area else maxArea;
    }
  }

  /** The area of the largest rectangle; bars, the end marker included, are pushed and popped
      at most once each. */
  method LargestRectangleArea(heights: seq<int>)
    returns (maxArea: int, ghost pops: seq<Pop>, ghost pushes: nat)
    requires NonNegative(heights)
    ensures IsLargest(heights, maxArea)
    ensures forall t :: 0 <= t < |pops| ==> PopOk(heights, pops[t]) && PopArea(heights, pops[t]) <= maxArea
    ensures forall b {:trigger Popped(pops, b)} :: 0 <= b < |heights| && heights[b] > 0 ==> Popped(pops, b)
    ensures AllFull(heights, pops) <==> !exists i, j :: EqualPair(heights, i, j)
    ensures pushes == |heights| + 1 && pushes + |pops| <= 2 * (|heights| + 1)
  {
    var n := |heights|;
    var stack: seq<int> := [];
    maxArea, pops, pushes := 0, [], 0;
    for i := 0 to n + 1
      invariant pushes == i && |pops| + |stack| == i
      invariant i <= n ==> Dealt(heights, stack, pops, maxArea, i) && Below(stack, |stack|) == i - 1
      invariant i == n + 1 ==> Answer(heights, pops, maxArea)
    {
      var current := if i == n then 0 else heights[i];
      StartPopping(heights, stack, pops, maxArea, i, current);
      stack, maxArea, pops := PopHigher(heights, stack, maxArea, i, current, pops);
      if i == n {
        LastStep(heights, stack, pops, maxArea);
      } else {
        PushStep(heights, stack, pops, maxArea, i);
      }
      stack := stack + [i];
      pushes := pushes + 1;
    }
    AllFullUnlessEqualPair(heights, pops);
  }
}
