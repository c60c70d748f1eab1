/** Division facts the solver does not find alone. */
module Modulo {

  lemma ModUnique(m: int, q: int, r: int)
    requires 0 <= r < m
    ensures (q * m + r) % m == r && (q * m + r) / m == q
  {
    var x := q * m + r;
    var d := q - x / m;
    assert x % m - r == d * m;
    assert d >= 1 ==> d * m >= m;
    assert d <= -1 ==> d * m <= -m;
  }

  lemma ModShift(x: nat, m: nat)
    requires m > 0
    ensures (x + m) % m == x % m
  {
    ModUnique(m, x / m + 1, x % m);
    assert (x / m + 1) * m == x / m * m + m;
  }

  lemma ModAdd(x: nat, k: nat, m: nat)
    requires m > 0
    ensures (x % m + k) % m == (x + k) % m
  {
    var q, y := x / m, x % m + k;
    var p, r := y / m, y % m;
    ModUnique(m, q + p, r);
    assert (q + p) * m + r == x + k by {
      assert (q + p) * m == q * m + p * m;
      assert x == q * m + x % m && y == p * m + r;
    }
  }

  lemma ModApart(x: nat, y: nat, m: nat)
    requires x < y < x + m
    ensures x % m != y % m
  {
    var d := y / m - x / m;
    assert y - x == d * m + (y % m - x % m);
    assert d >= 1 ==> d * m >= m;
    assert d <= 0 ==> d * m <= 0;
  }

  lemma HalvesModulo(x: nat, h: nat)
    requires h > 0
    ensures x % (2 * h) == 2 * (x / 2 % h) + x % 2
  {
    var q, r := x / 2 / h, x / 2 % h;
    assert x / 2 == q * h + r;
    assert q * (2 * h) == 2 * (q * h);
    ModUnique(2 * h, q, 2 * r + x % 2);
  }
}
