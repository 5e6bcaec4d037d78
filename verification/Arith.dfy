/** Integer helpers of include/dottorrent/utils.hpp and the facts about powers of two and division they rest on. */
module Arith {

  function Pow2(n: nat): (p: nat)
    ensures p >= 1
  {
    if n == 0 then 1 else 2 * Pow2(n - 1)
  }

  /** `x / y` rounded up, written as the source writes it. */
  function DivCeil(x: nat, y: nat): nat
    requires y != 0
  {
    x / y + (if x % y != 0 then 1 else 0)
  }

  /** The position of the highest set bit; the source answers 0 for 0. */
  function Log2Floor(x: nat): (k: nat)
    ensures x > 0 ==> Pow2(k) <= x < Pow2(k + 1)
    ensures x == 0 ==> k == 0
  {
    if x <= 1 then 0 else 1 + Log2Floor(x / 2)
  }

  function Log2Ceil(x: nat): nat
    requires x > 0
  {
    Log2Floor(2 * x - 1)
  }

  lemma {:induction false} Pow2Monotone(a: nat, b: nat)
    requires a <= b
    ensures Pow2(a) <= Pow2(b)
  {
    if a < b {
      Pow2Monotone(a, b - 1);
    }
  }

  lemma {:induction false} Pow2Add(a: nat, b: nat)
    ensures Pow2(a + b) == Pow2(a) * Pow2(b)
  {
    if b > 0 {
      Pow2Add(a, b - 1);
      assert Pow2(a + b) == 2 * Pow2(a + (b - 1));
      assert Pow2(a) * Pow2(b) == 2 * (Pow2(a) * Pow2(b - 1));
    }
  }

  /** The interval [2^k, 2^(k+1)) determines k. */
  lemma Log2FloorUnique(x: nat, k: nat)
    requires Pow2(k) <= x < Pow2(k + 1)
    ensures Log2Floor(x) == k
  {
    var m := Log2Floor(x);
    if m < k {
      Pow2Monotone(m + 1, k);
    } else if k < m {
      Pow2Monotone(k + 1, m);
    }
  }

  /** `Log2Ceil` is the least exponent whose power of two covers `n`. */
  lemma Log2CeilLeast(n: nat)
    requires n > 0
    ensures n <= Pow2(Log2Ceil(n))
    ensures forall h: nat :: n <= Pow2(h) <==> Log2Ceil(n) <= h
  {
    var k := Log2Ceil(n);
    assert Pow2(k) <= 2 * n - 1 < 2 * Pow2(k);
    if k > 0 {
      assert Pow2(k) == 2 * Pow2(k - 1);
    }
    forall h: nat
      ensures n <= Pow2(h) <==> k <= h
    {
      if k <= h {
        Pow2Monotone(k, h);
      } else {
        Pow2Monotone(h, k - 1);
      }
    }
  }

  /** A multiple of y that is not the zeroth is at least y away from 0. */
  lemma MulAtLeast(e: int, y: int)
    requires y >= 0
    ensures e >= 1 ==> e * y >= y
    ensures e <= -1 ==> e * y <= -y
  {
  }

  /** Quotient and remainder are determined by the division equation. */
  lemma DivUnique(x: nat, q: nat, r: nat, y: nat)
    requires y > 0 && r < y && x == q * y + r
    ensures x / y == q && x % y == r
  {
    var e := x / y - q;
    assert e * y == r - x % y;
    MulAtLeast(e, y);
  }

  lemma MulMonotone(a: nat, b: nat, y: nat)
    requires a <= b
    ensures a * y <= b * y
  {
  }

  /** `DivCeil(x, y)` is the quotient of `x + y - 1`, the form the source uses elsewhere. */
  lemma DivCeilAsQuotient(x: nat, y: nat)
    requires y > 0
    ensures DivCeil(x, y) == (x + y - 1) / y
  {
    var q, r := x / y, x % y;
    assert x == q * y + r;
    if r == 0 {
      DivUnique(x + y - 1, q, y - 1, y);
    } else {
      assert (q + 1) * y == q * y + y;
      DivUnique(x + y - 1, q + 1, r - 1, y);
    }
  }

  /** `DivCeil(x, y)` counts the blocks of size y that x bytes begin. */
  lemma DivCeilCounts(x: nat, y: nat, k: nat)
    requires y > 0
    ensures k < DivCeil(x, y) <==> k * y < x
  {
    var q, r := x / y, x % y;
    assert x == q * y + r;
    if k <= q {
      MulMonotone(k, q, y);
      if k < q {
        MulMonotone(k + 1, q, y);
        assert (k + 1) * y == k * y + y;
      }
    } else {
      MulMonotone(q + 1, k, y);
      assert (q + 1) * y == q * y + y;
    }
  }
}
