/** Binary search over the answer: splitting an array, and eating speeds. */
module BinarySearchOnAnswer {
  import opened Sequences
  import Halving

  ghost function Sum(s: seq<int>): int {
    if s == [] then 0 else Sum(s[..|s| - 1]) + s[|s| - 1]
  }

  ghost predicate AtMost(s: seq<int>, limit: int) {
    forall i :: 0 <= i < |s| ==> s[i] <= limit
  }

  /** std::max_element */
  method Max(s: seq<int>) returns (m: int)
    requires s != []
    ensures AtMost(s, m) && m in s
  {
    m := s[0];
    for i := 1 to |s|
      invariant m in s && forall k :: 0 <= k < i ==> s[k] <= m
    {
      if s[i] > m { m := s[i]; }
    }
  }

  // ----- Split array: specification -----

  ghost function Concat(blocks: seq<seq<int>>): seq<int> {
    if blocks == [] then [] else Concat(blocks[..|blocks| - 1]) + blocks[|blocks| - 1]
  }

  /** nums cut into nonempty contiguous blocks, none adding up to more than limit. */
  ghost predicate IsSplit(nums: seq<int>, limit: int, blocks: seq<seq<int>>) {
    && Concat(blocks) == nums
    && forall i :: 0 <= i < |blocks| ==> blocks[i] != [] && Sum(blocks[i]) <= limit
  }

  ghost predicate CanSplit(nums: seq<int>, m: int, limit: int) {
    exists blocks :: IsSplit(nums, limit, blocks) && |blocks| <= m
  }

  lemma Wider(nums: seq<int>, m: int, limit: int, limit': int)
    requires CanSplit(nums, m, limit) && limit <= limit'
    ensures CanSplit(nums, m, limit')
  {
    var blocks :| IsSplit(nums, limit, blocks) && |blocks| <= m;
    assert IsSplit(nums, limit', blocks);
  }

  // ----- Split array: the greedy test -----

  /** Blocks opened and sum of the last one, filling blocks from the left as far as they go. */
  ghost function Greedy(nums: seq<int>, limit: int): (r: (int, int)) {
    if nums == [] then (1, 0)
    else
      var (splits, current) := Greedy(nums[..|nums| - 1], limit);
      var x := nums[|nums| - 1];
      if current + x > limit then (splits + 1, x) else (splits, current + x)
  }

  /** blocks without the last number. */
  ghost function Shorten(blocks: seq<seq<int>>): seq<seq<int>>
    requires blocks != [] && blocks[|blocks| - 1] != []
  {
    var last := blocks[|blocks| - 1];
    blocks[..|blocks| - 1] + (if |last| == 1 then [] else [last[..|last| - 1]])
  }

  lemma ShortenSplits(nums: seq<int>, limit: int, blocks: seq<seq<int>>)
    requires IsSplit(nums, limit, blocks) && nums != [] && NonNegative(nums)
    ensures blocks != [] && blocks[|blocks| - 1] != []
    ensures IsSplit(nums[..|nums| - 1], limit, Shorten(blocks))
    ensures var last := blocks[|blocks| - 1]; last[|last| - 1] == nums[|nums| - 1]
  {
    assert blocks != [];
    var last, front := blocks[|blocks| - 1], blocks[..|blocks| - 1];
    var short := Shorten(blocks);
    assert last != [] && nums == Concat(front) + last;
    if |last| == 1 {
      assert short == front;
    } else {
      assert short[..|short| - 1] == front;
      assert Concat(short) == Concat(front) + last[..|last| - 1];
      assert last[|last| - 1] == nums[|nums| - 1] >= 0;
    }
  }

  lemma LastBlockNonNegative(nums: seq<int>, blocks: seq<seq<int>>)
    requires NonNegative(nums) && blocks != [] && Concat(blocks) == nums
    ensures NonNegative(blocks[|blocks| - 1])
  {
    var last := blocks[|blocks| - 1];
    assert nums == Concat(blocks[..|blocks| - 1]) + last;
    forall i | 0 <= i < |last| ensures last[i] >= 0 {
      assert last[i] == nums[|nums| - |last| + i];
    }
  }

  /** The greedy filling is never behind any split: fewer blocks, or as many with no more in
      the last. */
  lemma {:induction false} GreedyIsAhead(nums: seq<int>, limit: int, blocks: seq<seq<int>>)
    requires NonNegative(nums) && AtMost(nums, limit) && nums != [] && IsSplit(nums, limit, blocks)
    ensures blocks != []
    ensures var (splits, current) := Greedy(nums, limit);
            splits < |blocks| || (splits == |blocks| && current <= Sum(blocks[|blocks| - 1]))
    decreases |nums|
  {
    ShortenSplits(nums, limit, blocks);
    var before, x := nums[..|nums| - 1], nums[|nums| - 1];
    var short, last := Shorten(blocks), blocks[|blocks| - 1];
    if before == [] {
      assert Sum(last) == Sum(last[..|last| - 1]) + x;
      OneNumber(nums, limit, blocks);
    } else {
      GreedyIsAhead(before, limit, short);
      if |last| == 1 {
        assert last[..0] == [];
        assert Sum(last) == x;
      } else {
        assert short[|short| - 1] == last[..|last| - 1];
        LastBlockNonNegative(nums, blocks);
        SumBounds(last[..|last| - 1], 0);
      }
    }
  }

  lemma {:induction false} BlocksFill(blocks: seq<seq<int>>)
    requires forall i :: 0 <= i < |blocks| ==> blocks[i] != []
    ensures |blocks| <= |Concat(blocks)|
    decreases |blocks|
  {
    if blocks != [] { BlocksFill(blocks[..|blocks| - 1]); }
  }

  lemma OneNumber(nums: seq<int>, limit: int, blocks: seq<seq<int>>)
    requires |nums| == 1 && AtMost(nums, limit) && IsSplit(nums, limit, blocks)
    ensures Greedy(nums, limit) == (1, nums[0])
    ensures |blocks| == 1 && blocks[0] == nums && Sum(nums) == nums[0]
  {
    assert nums[..0] == [];
    BlocksFill(blocks);
    assert blocks != [];
    assert blocks[..0] == [];
  }

  lemma OpenBlock(nums: seq<int>, limit: int, blocks: seq<seq<int>>, x: int)
    requires IsSplit(nums, limit, blocks) && x <= limit
    ensures IsSplit(nums + [x], limit, blocks + [[x]])
    ensures Sum([x]) == x
  {
    assert (blocks + [[x]])[..|blocks|] == blocks;
    assert [x][..0] == [];
  }

  lemma ExtendBlock(nums: seq<int>, limit: int, blocks: seq<seq<int>>, x: int)
    requires IsSplit(nums, limit, blocks) && blocks != [] && Sum(blocks[|blocks| - 1]) + x <= limit
    ensures var last := blocks[|blocks| - 1];
            && IsSplit(nums + [x], limit, blocks[|blocks| - 1 := last + [x]])
            && Sum(last + [x]) == Sum(last) + x
  {
    var last := blocks[|blocks| - 1];
    var blocks' := blocks[|blocks| - 1 := last + [x]];
    assert blocks'[..|blocks| - 1] == blocks[..|blocks| - 1];
    assert (last + [x])[..|last|] == last;
    assert Concat(blocks') == Concat(blocks[..|blocks| - 1]) + (last + [x]);
  }

  /** Filling in one more number keeps the greedy filling a split. */
  lemma OneMoreNumber(before: seq<int>, limit: int, prior: seq<seq<int>>, x: int) returns (blocks: seq<seq<int>>)
    requires before != [] && IsSplit(before, limit, prior) && prior != [] && x <= limit
    requires Greedy(before, limit) == (|prior|, Sum(prior[|prior| - 1]))
    ensures IsSplit(before + [x], limit, blocks) && blocks != []
    ensures Greedy(before + [x], limit) == (|blocks|, Sum(blocks[|blocks| - 1]))
  {
    var last := prior[|prior| - 1];
    assert (before + [x])[..|before|] == before;
    if Sum(last) + x > limit {
      OpenBlock(before, limit, prior, x);
      blocks := prior + [[x]];
    } else {
      ExtendBlock(before, limit, prior, x);
      blocks := prior[|prior| - 1 := last + [x]];
    }
  }

  /** The greedy filling is itself a split. */
  lemma {:induction false} GreedySplits(nums: seq<int>, limit: int) returns (blocks: seq<seq<int>>)
    requires AtMost(nums, limit) && nums != []
    ensures IsSplit(nums, limit, blocks) && blocks != []
    ensures Greedy(nums, limit) == (|blocks|, Sum(blocks[|blocks| - 1]))
    decreases |nums|
  {
    var before, x := nums[..|nums| - 1], nums[|nums| - 1];
    assert nums == before + [x];
    if before == [] {
      OpenBlock([], limit, [], x);
      blocks := [] + [[x]];
    } else {
      var prior := GreedySplits(before, limit);
      blocks := OneMoreNumber(before, limit, prior, x);
    }
  }

  /** The greedy test is exact. */
  lemma GreedyDecides(nums: seq<int>, m: int, limit: int)
    requires NonNegative(nums) && AtMost(nums, limit) && nums != []
    ensures CanSplit(nums, m, limit) <==> Greedy(nums, limit).0 <= m
  {
    if blocks :| IsSplit(nums, limit, blocks) && |blocks| <= m {
      GreedyIsAhead(nums, limit, blocks);
    }
    var blocks := GreedySplits(nums, limit);
  }

  lemma {:induction false} GreedyGrows(nums: seq<int>, limit: int, i: int)
    requires 0 <= i <= |nums|
    ensures Greedy(nums[..i], limit).0 <= Greedy(nums, limit).0
    decreases |nums|
  {
    if i < |nums| {
      GreedyGrows(nums[..|nums| - 1], limit, i);
      assert nums[..|nums| - 1][..i] == nums[..i];
    } else {
      assert nums[..i] == nums;
    }
  }

  lemma GreedyStep(nums: seq<int>, limit: int, i: int)
    requires 0 <= i < |nums|
    ensures var (splits, current) := Greedy(nums[..i], limit);
            Greedy(nums[..i + 1], limit)
            == if current + nums[i] > limit then (splits + 1, nums[i]) else (splits, current + nums[i])
  {
    assert nums[..i + 1][..i] == nums[..i];
  }

  /** The greedy loop, with its early exit. */
  method RunGreedy(nums: seq<int>, m: int, maxSum: int) returns (ok: bool)
    requires m >= 1
    ensures ok == (Greedy(nums, maxSum).0 <= m)
  {
    var splits, current := 1, 0;
    for i := 0 to |nums|
      invariant (splits, current) == Greedy(nums[..i], maxSum) && splits <= m
    {
      GreedyStep(nums, maxSum, i);
      if current + nums[i] > maxSum {
        splits := splits + 1;
        current := nums[i];
        if splits > m {
          GreedyGrows(nums, maxSum, i + 1);
          return false;
        }
      } else {
        current := current + nums[i];
      }
    }
    assert nums[..|nums|] == nums;
    return true;
  }

  method TestSplit(nums: seq<int>, m: int, maxSum: int) returns (ok: bool)
    requires NonNegative(nums) && AtMost(nums, maxSum) && nums != [] && m >= 1
    ensures ok == CanSplit(nums, m, maxSum)
  {
    ok := RunGreedy(nums, m, maxSum);
    GreedyDecides(nums, m, maxSum);
  }

  lemma {:induction false} SumBounds(s: seq<int>, x: int)
    requires NonNegative(s)
    ensures Sum(s) >= 0 && (x in s ==> x <= Sum(s))
    decreases |s|
  {
    if s != [] {
      SumBounds(s[..|s| - 1], x);
      assert s == s[..|s| - 1] + [s[|s| - 1]];
    }
  }

  /** One block is always a split at the total. */
  lemma TotalIsEnough(nums: seq<int>, m: int)
    requires nums != [] && m >= 1
    ensures CanSplit(nums, m, Sum(nums))
  {
    var blocks := [nums];
    assert blocks[..0] == [];
    assert IsSplit(nums, Sum(nums), blocks);
  }

  /** No limit below a single number will do. */
  lemma {:induction false} BelowMaxFails(nums: seq<int>, limit: int, x: int, blocks: seq<seq<int>>)
    requires NonNegative(nums) && x in nums && limit < x
    ensures !IsSplit(nums, limit, blocks)
    decreases |blocks|
  {
    if IsSplit(nums, limit, blocks) && blocks != [] {
      var front, last := blocks[..|blocks| - 1], blocks[|blocks| - 1];
      assert nums == Concat(front) + last;
      assert forall i :: 0 <= i < |last| ==> last[i] == nums[|Concat(front)| + i];
      SumBounds(last, x);
      assert x in Concat(front);
      assert forall i :: 0 <= i < |Concat(front)| ==> Concat(front)[i] == nums[i];
      BelowMaxFails(Concat(front), limit, x, front);
      assert IsSplit(Concat(front), limit, front);
    }
  }

  method Accumulate(nums: seq<int>) returns (r: int)
    ensures r == Sum(nums)
  {
    r := 0;
    for i := 0 to |nums|
      invariant r == Sum(nums[..i])
    {
      assert nums[..i + 1][..i] == nums[..i];
      r := r + nums[i];
    }
    assert nums[..|nums|] == nums;
  }

  /** The least limit for which nums splits into at most m blocks. */
  method SplitArray(nums: seq<int>, m: int) returns (r: int)
    requires NonNegative(nums) && nums != [] && m >= 1
    ensures CanSplit(nums, m, r)
    ensures forall limit :: limit < r ==> !CanSplit(nums, m, limit)
  {
    var lo := Max(nums);
    var hi := Accumulate(nums);
    SumBounds(nums, lo);
    TotalIsEnough(nums, m);
    forall limit | limit < lo ensures !CanSplit(nums, m, limit) {
      forall blocks ensures !IsSplit(nums, limit, blocks) {
        BelowMaxFails(nums, limit, lo, blocks);
      }
    }
    while lo < hi
      invariant AtMost(nums, lo) && lo <= hi && CanSplit(nums, m, hi)
      invariant forall limit :: limit < lo ==> !CanSplit(nums, m, limit)
    {
      var mid := Halving.Midpoint(lo, hi);
      var ok := TestSplit(nums, m, mid);
      if ok {
        hi := mid;
      } else {
        forall limit | limit <= mid ensures !CanSplit(nums, m, limit) {
          if CanSplit(nums, m, limit) { Wider(nums, m, limit, mid); }
        }
        lo := mid + 1;
      }
    }
    return lo;
  }

  // ----- Eating speed -----

  /** Ceiling of pile / speed, as the program computes it. */
  function HoursFor(pile: int, speed: int): int
    requires speed > 0
  {
    (pile + speed - 1) / speed
  }

  ghost function Hours(piles: seq<int>, speed: int): int
    requires speed > 0
  {
    if piles == [] then 0 else Hours(piles[..|piles| - 1], speed) + HoursFor(piles[|piles| - 1], speed)
  }

  /** Number of piles that hold anything. */
  ghost function Full(piles: seq<int>): int {
    if piles == [] then 0 else Full(piles[..|piles| - 1]) + (if piles[|piles| - 1] > 0 then 1 else 0)
  }

  /** The least number of hours at this speed that covers the pile. */
  lemma CeilingIs(pile: int, speed: int, h: int)
    requires pile >= 0 && speed > 0 && h >= 0
    ensures HoursFor(pile, speed) <= h <==> pile <= h * speed
  {
    var c := HoursFor(pile, speed);
    var r := (pile + speed - 1) % speed;
    assert pile + speed - 1 == c * speed + r;
    var d := h - c;
    assert h * speed == c * speed + d * speed;
    assert d >= 0 ==> d * speed >= 0;
    assert d <= -1 ==> d * speed <= -speed;
  }

  lemma FasterIsShorter(pile: int, speed: int, speed': int)
    requires pile >= 0 && 0 < speed <= speed'
    ensures 0 <= HoursFor(pile, speed') <= HoursFor(pile, speed)
  {
    var h := HoursFor(pile, speed);
    assert h >= 0;
    CeilingIs(pile, speed, h);
    assert h * speed <= h * speed';
    CeilingIs(pile, speed', h);
  }

  lemma {:induction false} HoursMonotone(piles: seq<int>, speed: int, speed': int)
    requires NonNegative(piles) && 0 < speed <= speed'
    ensures 0 <= Hours(piles, speed') <= Hours(piles, speed)
    decreases |piles|
  {
    if piles != [] {
      HoursMonotone(piles[..|piles| - 1], speed, speed');
      FasterIsShorter(piles[|piles| - 1], speed, speed');
    }
  }

  /** At any speed a full pile takes an hour at least; at the largest pile's, exactly one. */
  lemma {:induction false} AtLeastOneEach(piles: seq<int>, speed: int)
    requires NonNegative(piles) && 0 < speed
    ensures Full(piles) <= Hours(piles, speed)
    ensures AtMost(piles, speed) ==> Hours(piles, speed) == Full(piles)
    decreases |piles|
  {
    if piles != [] {
      AtLeastOneEach(piles[..|piles| - 1], speed);
      CeilingIs(piles[|piles| - 1], speed, 0);
      CeilingIs(piles[|piles| - 1], speed, 1);
    }
  }

  method CanFinish(piles: seq<int>, h: int, speed: int) returns (ok: bool)
    requires speed > 0
    ensures ok == (Hours(piles, speed) <= h)
  {
    var hours := 0;
    for i := 0 to |piles|
      invariant hours == Hours(piles[..i], speed)
    {
      assert piles[..i + 1][..i] == piles[..i];
      hours := hours + HoursFor(piles[i], speed);
    }
    assert piles[..|piles|] == piles;
    ok := hours <= h;
  }

  /** Two piles of one banana and a single hour: no speed is fast enough. */
  lemma NoSpeedForTwoPiles(speed: int)
    requires speed >= 1
    ensures Full([1, 1]) == 2 && Hours([1, 1], speed) > 1
  {
    assert [1, 1][..1] == [1] && [1][..0] == [];
    assert Full([1]) == 1;
    AtLeastOneEach([1, 1], speed);
  }

  /** The result finishes in time if and only if h is at least the number of full piles, which
      is when any speed does; and then no slower speed does. */
  method MinEatingSpeed(piles: seq<int>, h: int) returns (r: int)
    requires NonNegative(piles) && piles != []
    ensures r >= 1
    ensures Hours(piles, r) <= h <==> Full(piles) <= h
    ensures forall speed :: 1 <= speed < r ==> Hours(piles, speed) > h
    ensures Full(piles) > h ==> forall speed :: 1 <= speed ==> Hours(piles, speed) > h
  {
    var lo := 1;
    var hi := Max(piles);
    ghost var top := if hi < 1 then 1 else hi;
    forall speed | 1 <= speed ensures Full(piles) <= Hours(piles, speed) { AtLeastOneEach(piles, speed); }
    AtLeastOneEach(piles, top);
    while lo < hi
      invariant 1 <= lo <= (if hi < 1 then 1 else hi) <= top
      invariant Full(piles) <= h ==> Hours(piles, if hi < 1 then 1 else hi) <= h
      invariant forall speed :: 1 <= speed < lo ==> Hours(piles, speed) > h
    {
      var mid := Halving.Midpoint(lo, hi);
      var ok := CanFinish(piles, h, mid);
      if ok {
        hi := mid;
      } else {
        forall speed | 1 <= speed <= mid ensures Hours(piles, speed) > h {
          HoursMonotone(piles, speed, mid);
        }
        lo := mid + 1;
      }
    }
    return lo;
  }
}
