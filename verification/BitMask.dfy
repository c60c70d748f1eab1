/** The bit mask that stands for a modulus. */
module BitMask {
  import Modulo

  /** Bitwise and of two natural numbers. */
  function And(x: nat, y: nat): (r: nat)
    decreases x
  {
    if x == 0 || y == 0 then 0
    else 2 * And(x / 2, y / 2) + (if x % 2 == 1 && y % 2 == 1 then 1 else 0)
  }

  lemma {:induction false} AndSelf(x: nat)
    ensures And(x, x) == x
  {
    if x > 0 { AndSelf(x / 2); }
  }

  lemma AndHalves(x: nat, h: nat)
    requires h > 0
    ensures And(x, 2 * h - 1) == 2 * And(x / 2, h - 1) + x % 2
    ensures And(2 * h, 2 * h - 1) == 2 * And(h, h - 1)
  {
    assert (2 * h - 1) / 2 == h - 1 && (2 * h - 1) % 2 == 1;
    assert 2 * h / 2 == h && 2 * h % 2 == 0;
  }

  /** The compile-time test for a power of two makes masking with c - 1 the same as taking the
      remainder by c. */
  lemma {:induction false} MaskIsModulo(c: nat, x: nat)
    requires c > 0 && And(c, c - 1) == 0
    ensures And(x, c - 1) == x % c
    decreases c
  {
    var h := c / 2;
    if c % 2 == 1 {
      AndSelf(h);
      assert (c - 1) / 2 == h;
      assert c == 1;
    } else {
      assert c == 2 * h;
      AndHalves(x, h);
      Modulo.HalvesModulo(x, h);
      MaskIsModulo(h, x / 2);
    }
  }
}
