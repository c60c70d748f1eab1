/** 0/1 knapsack: the one-row form, the table, and the items it selects. */
module Knapsack {
  import opened Sequences

  datatype Item = Item(weight: int, value: int, name: string)

  ghost predicate ItemsOk(items: seq<Item>) {
    forall i :: 0 <= i < |items| ==> items[i].weight >= 0
  }

  // ----- Specification: selections of items -----

  /** Item numbers in increasing order. */
  ghost predicate IsSelection(items: seq<Item>, sel: seq<int>) {
    && (forall k :: 0 <= k < |sel| ==> 0 <= sel[k] < |items|)
    && (forall k, l :: 0 <= k < l < |sel| ==> sel[k] < sel[l])
  }

  ghost function Weight(items: seq<Item>, sel: seq<int>): int
    requires IsSelection(items, sel)
  {
    if sel == [] then 0 else Weight(items, sel[..|sel| - 1]) + items[sel[|sel| - 1]].weight
  }

  ghost function Value(items: seq<Item>, sel: seq<int>): int
    requires IsSelection(items, sel)
  {
    if sel == [] then 0 else Value(items, sel[..|sel| - 1]) + items[sel[|sel| - 1]].value
  }

  ghost predicate Fits(items: seq<Item>, capacity: int, sel: seq<int>) {
    IsSelection(items, sel) && Weight(items, sel) <= capacity
  }

  /** v is the greatest value of a selection that fits. */
  ghost predicate IsOptimum(items: seq<Item>, capacity: int, v: int) {
    && (exists sel :: Fits(items, capacity, sel) && Value(items, sel) == v)
    && (forall sel :: Fits(items, capacity, sel) ==> Value(items, sel) <= v)
  }

  // ----- The recurrence of the table -----

  /** Best value using the first n items with capacity w. */
  ghost function Best(items: seq<Item>, n: int, w: int): int
    requires ItemsOk(items) && 0 <= n <= |items| && 0 <= w
    decreases n
  {
    if n == 0 then 0
    else
      var item, skip := items[n - 1], Best(items, n - 1, w);
      if item.weight <= w && Best(items, n - 1, w - item.weight) + item.value > skip
      then Best(items, n - 1, w - item.weight) + item.value
      else skip
  }

  lemma {:induction false} WeightNotNegative(items: seq<Item>, sel: seq<int>)
    requires ItemsOk(items) && IsSelection(items, sel)
    ensures Weight(items, sel) >= 0
    decreases |sel|
  {
    if sel != [] { WeightNotNegative(items, sel[..|sel| - 1]); }
  }

  /** No selection of the first n items that fits is worth more. */
  lemma {:induction false} BestBounds(items: seq<Item>, n: int, w: int, sel: seq<int>)
    requires ItemsOk(items) && 0 <= n <= |items| && IsSelection(items, sel)
    requires forall k :: 0 <= k < |sel| ==> sel[k] < n
    requires Weight(items, sel) <= w
    ensures w >= 0 && Value(items, sel) <= Best(items, n, w)
    decreases n
  {
    WeightNotNegative(items, sel);
    assert sel != [] ==> 0 <= sel[0] < n;
    if n > 0 {
      if sel != [] && sel[|sel| - 1] == n - 1 {
        var rest := sel[..|sel| - 1];
        BestBounds(items, n - 1, w - items[n - 1].weight, rest);
      } else {
        forall k | 0 <= k < |sel| ensures sel[k] < n - 1 {
          if k < |sel| - 1 { assert sel[k] < sel[|sel| - 1]; }
        }
        BestBounds(items, n - 1, w, sel);
      }
    }
  }

  lemma AppendSum(items: seq<Item>, sel: seq<int>, x: int)
    requires IsSelection(items, sel) && 0 <= x < |items| && forall k :: 0 <= k < |sel| ==> sel[k] < x
    ensures IsSelection(items, sel + [x])
    ensures Weight(items, sel + [x]) == Weight(items, sel) + items[x].weight
    ensures Value(items, sel + [x]) == Value(items, sel) + items[x].value
  {
    assert (sel + [x])[..|sel|] == sel;
  }

  /** A selection of the first n items of that weight at most and exactly that value. */
  ghost predicate Reaches(items: seq<Item>, n: int, w: int, sel: seq<int>, v: int) {
    && Fits(items, w, sel) && Value(items, sel) == v
    && (sel == [] || sel[|sel| - 1] < n)
  }

  lemma ReachesBySkipping(items: seq<Item>, n: int, w: int, sel: seq<int>, v: int)
    requires Reaches(items, n - 1, w, sel, v)
    ensures Reaches(items, n, w, sel, v)
  {
  }

  lemma ReachesByTaking(items: seq<Item>, n: int, w: int, sel: seq<int>, v: int)
    requires 0 < n <= |items| && Reaches(items, n - 1, w - items[n - 1].weight, sel, v)
    ensures Reaches(items, n, w, sel + [n - 1], v + items[n - 1].value)
  {
    forall k | 0 <= k < |sel| ensures sel[k] < n - 1 {
      if k < |sel| - 1 { assert sel[k] < sel[|sel| - 1]; }
    }
    AppendSum(items, sel, n - 1);
  }

  /** Some selection of the first n items that fits is worth that much. */
  lemma {:induction false} BestAttained(items: seq<Item>, n: int, w: int) returns (sel: seq<int>)
    requires ItemsOk(items) && 0 <= n <= |items| && 0 <= w
    ensures Reaches(items, n, w, sel, Best(items, n, w))
    decreases n
  {
    if n == 0 {
      sel := [];
    } else {
      var item := items[n - 1];
      if item.weight <= w && Best(items, n - 1, w - item.weight) + item.value > Best(items, n - 1, w) {
        var rest := BestAttained(items, n - 1, w - item.weight);
        ReachesByTaking(items, n, w, rest, Best(items, n - 1, w - item.weight));
        sel := rest + [n - 1];
      } else {
        sel := BestAttained(items, n - 1, w);
        ReachesBySkipping(items, n, w, sel, Best(items, n - 1, w));
      }
    }
  }

  lemma BestIsOptimum(items: seq<Item>, w: int)
    requires ItemsOk(items) && 0 <= w
    ensures IsOptimum(items, w, Best(items, |items|, w))
  {
    var sel := BestAttained(items, |items|, w);
    forall s | Fits(items, w, s) ensures Value(items, s) <= Best(items, |items|, w) {
      BestBounds(items, |items|, w, s);
    }
  }

  // ----- One row -----

  method KnapsackMaxValue(items: seq<Item>, capacity: int) returns (r: int)
    requires ItemsOk(items) && 0 <= capacity
    ensures IsOptimum(items, capacity, r)
    ensures r == Best(items, |items|, capacity)
  {
    var dp: seq<int> := seq(capacity + 1, _ => 0);
    for k := 0 to |items|
      invariant |dp| == capacity + 1 && forall x :: 0 <= x <= capacity ==> dp[x] == Best(items, k, x)
    {
      var item := items[k];
      var w := capacity;
      while w >= item.weight
        invariant |dp| == capacity + 1 && w <= capacity && (w >= item.weight - 1 || w == capacity)
        invariant forall x :: 0 <= x <= capacity ==> dp[x] == Best(items, if x > w then k + 1 else k, x)
      {
        if dp[w - item.weight] + item.value > dp[w] {
          dp := dp[w := dp[w - item.weight] + item.value];
        }
        w := w - 1;
      }
    }
    BestIsOptimum(items, capacity);
    return dp[capacity];
  }

  // ----- Table and backtrack -----

  ghost predicate RowIs(items: seq<Item>, capacity: int, row: seq<int>, i: int, n: int)
    requires ItemsOk(items) && 0 <= i <= |items| && 0 <= n <= capacity + 1
  {
    |row| == capacity + 1 && forall w :: 0 <= w < n ==> row[w] == Best(items, i, w)
  }

  ghost predicate TableIs(items: seq<Item>, capacity: int, dp: seq<seq<int>>, m: int)
    requires ItemsOk(items) && 0 <= m <= |items| + 1 && 0 <= capacity
  {
    |dp| == |items| + 1 && (forall i :: 0 <= i < |dp| ==> |dp[i]| == capacity + 1)
    && forall i :: 0 <= i < m ==> RowIs(items, capacity, dp[i], i, capacity + 1)
  }

  method FillTable(items: seq<Item>, capacity: int) returns (dp: seq<seq<int>>)
    requires ItemsOk(items) && 0 <= capacity
    ensures TableIs(items, capacity, dp, |items| + 1)
  {
    dp := seq(|items| + 1, _ => seq(capacity + 1, _ => 0));
    for i := 1 to |items| + 1
      invariant TableIs(items, capacity, dp, i)
    {
      for w := 0 to capacity + 1
        invariant TableIs(items, capacity, dp, i) && RowIs(items, capacity, dp[i], i, w)
      {
        assert RowIs(items, capacity, dp[i - 1], i - 1, capacity + 1);
        var item, cell := items[i - 1], dp[i - 1][w];
        if item.weight <= w && dp[i - 1][w - item.weight] + item.value > cell {
          cell := dp[i - 1][w - item.weight] + item.value;
        }
        dp := dp[i := dp[i][w := cell]];
      }
    }
  }

  /** The items picked so far, all at or after i, use what is missing from capacity and add
      what is missing from the optimum. */
  ghost predicate Picked(items: seq<Item>, capacity: int, sel: seq<int>, i: int, w: int)
    requires ItemsOk(items) && 0 <= i <= |items|
  {
    && IsSelection(items, sel) && (forall k :: 0 <= k < |sel| ==> i <= sel[k])
    && 0 <= w <= capacity && Weight(items, sel) + w == capacity
    && Value(items, sel) + Best(items, i, w) == Best(items, |items|, capacity)
  }

  lemma {:induction false} PrependSum(items: seq<Item>, x: int, sel: seq<int>)
    requires 0 <= x < |items| && IsSelection(items, sel) && forall k :: 0 <= k < |sel| ==> x < sel[k]
    ensures IsSelection(items, [x] + sel)
    ensures Weight(items, [x] + sel) == items[x].weight + Weight(items, sel)
    ensures Value(items, [x] + sel) == items[x].value + Value(items, sel)
    decreases |sel|
  {
    if sel == [] {
      AppendSum(items, [], x);
      assert [] + [x] == [x] + [];
    } else {
      var rest, last := sel[..|sel| - 1], sel[|sel| - 1];
      PrependSum(items, x, rest);
      AppendSum(items, [x] + rest, last);
      assert [x] + rest + [last] == [x] + sel;
    }
  }

  /** Item i - 1 is picked exactly when the table says it improved on skipping it. */
  lemma PickOrSkip(items: seq<Item>, capacity: int, selected: seq<int>, i: int, w: int)
    requires ItemsOk(items) && 0 < i <= |items| && Picked(items, capacity, Reversed(selected), i, w)
    ensures if Best(items, i, w) != Best(items, i - 1, w)
            then Picked(items, capacity, Reversed(selected + [i - 1]), i - 1, w - items[i - 1].weight)
            else Picked(items, capacity, Reversed(selected), i - 1, w)
  {
    if Best(items, i, w) != Best(items, i - 1, w) {
      PrependSum(items, i - 1, Reversed(selected));
      ReversedPush(selected, i - 1);
    }
  }

  method KnapsackWithItems(items: seq<Item>, capacity: int) returns (value: int, selected: seq<int>)
    requires ItemsOk(items) && 0 <= capacity
    ensures IsOptimum(items, capacity, value)
    ensures Fits(items, capacity, selected) && Value(items, selected) == value
    ensures value == Best(items, |items|, capacity)
  {
    var dp := FillTable(items, capacity);
    selected := [];
    var w := capacity;
    assert Reversed(selected) == [];
    var i := |items|;
    while i > 0
      invariant 0 <= i <= |items| && Picked(items, capacity, Reversed(selected), i, w)
    {
      assert RowIs(items, capacity, dp[i - 1], i - 1, capacity + 1) && RowIs(items, capacity, dp[i], i, capacity + 1);
      PickOrSkip(items, capacity, selected, i, w);
      if dp[i][w] != dp[i - 1][w] {
        selected := selected + [i - 1];
        w := w - items[i - 1].weight;
      }
      i := i - 1;
    }
    selected := Reversed(selected);
    BestIsOptimum(items, capacity);
    assert RowIs(items, capacity, dp[|items|], |items|, capacity + 1);
    value := dp[|items|][capacity];
  }
}
