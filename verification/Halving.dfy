/** The midpoint used by every halving loop and recursion here. */
module Halving {

  method Midpoint(lo: int, hi: int) returns (mid: int)
    requires lo < hi
    ensures lo <= mid < hi && 2 * mid <= lo + hi <= 2 * mid + 1
  {
    mid := lo + (hi - lo) / 2;
  }
}
