/** The few facts about multiples, remainders and powers of two the model rests on. */
module Arithmetic {
  lemma NextMultiple(a: int, b: int, size: nat)
    requires a < b
    ensures a * size + size <= b * size
  {
    var d: nat := b - a - 1;
    calc {
      b * size;
      (a + 1 + d) * size;
      a * size + size + d * size;
    }
  }

  /** Quotient and remainder are determined by `x == q * s + r`. */
  lemma Division(x: nat, q: nat, s: nat, r: nat)
    requires r < s && x == q * s + r
    ensures x / s == q && x % s == r
  {
    var q': int := x / s;
    assert x == q' * s + x % s;
    if q' < q {
      NextMultiple(q', q, s);
    } else if q' > q {
      NextMultiple(q, q', s);
    }
  }

  lemma RemainderAtMost(x: nat, s: nat)
    requires s > 0
    ensures x % s <= x
  {
    if x < s {
      Division(x, 0, s, x);
    }
  }

  function Pow2(n: nat): (r: nat)
    ensures r >= 1
  {
    if n == 0 then 1 else 2 * Pow2(n - 1)
  }

  lemma {:induction false} Pow2Sum(a: nat, b: nat)
    ensures Pow2(a + b) == Pow2(a) * Pow2(b)
  {
    if a > 0 {
      Pow2Sum(a - 1, b);
      assert Pow2(a + b) == 2 * Pow2(a - 1 + b) && Pow2(a) == 2 * Pow2(a - 1);
      hide Pow2;
      Doubled(Pow2(a - 1), Pow2(b));
    }
  }

  lemma Doubled(x: nat, y: nat)
    ensures 2 * (x * y) == (2 * x) * y
  {
  }

  lemma PowersOfIpv4()
    ensures Pow2(1) == 2 && Pow2(8) == 256 && Pow2(32) == 0x1_0000_0000
  {
    assert Pow2(4) == 16;
    Pow2Sum(4, 4);
    Pow2Sum(8, 8);
    Pow2Sum(16, 16);
  }

  /** A block of `s` aligned at a multiple of `s` fits below every larger multiple of `s`. */
  lemma BlockFits(q: nat, s: nat, n: nat)
    requires q * s < n * s
    ensures q < n && q * s + s <= n * s
  {
    if q < n {
      NextMultiple(q, n, s);
    } else if n < q {
      NextMultiple(n, q, s);
    }
  }
}
