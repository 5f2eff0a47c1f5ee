/** Integer powers of two and exact division.

    The C program computes 2^x with `(int)pow(2, x)` and log2(n) with
    `log(n)/log(2)` in floating point; on the small power-of-two sizes the
    sort works with, those are the integer functions defined here. */
module Powers {

  /** 2^x. */
  function Pow2(x: nat): (p: nat)
    ensures p >= 1
  {
    if x == 0 then 1 else 2 * Pow2(x - 1)
  }

  /** p is a power of two (1, 2, 4, ...). */
  predicate IsPow2(p: nat)
    decreases p
  {
    p == 1 || (p > 1 && p % 2 == 0 && IsPow2(p / 2))
  }

  /** 2^(a+b) == 2^a * 2^b. */
  lemma {:induction false} Pow2Add(a: nat, b: nat)
    ensures Pow2(a + b) == Pow2(a) * Pow2(b)
  {
    if a > 0 {
      Pow2Add(a - 1, b);
      assert Pow2(a + b) == 2 * Pow2(a - 1 + b);
      assert 2 * (Pow2(a - 1) * Pow2(b)) == (2 * Pow2(a - 1)) * Pow2(b);
    }
  }

  /** Pow2 is strictly increasing. */
  lemma {:induction false} Pow2Monotone(a: nat, b: nat)
    requires a < b
    ensures Pow2(a) < Pow2(b)
  {
    if a + 1 < b {
      Pow2Monotone(a, b - 1);
    }
  }

  /** Every 2^e is a power of two in the sense of IsPow2. */
  lemma {:induction false} Pow2IsPow2(e: nat)
    ensures IsPow2(Pow2(e))
  {
    if e > 0 {
      Pow2IsPow2(e - 1);
      assert Pow2(e) / 2 == Pow2(e - 1);
    }
  }

  /** p is the least power of two that is at least m. */
  predicate LeastPow2AtLeast(p: nat, m: nat)
  {
    IsPow2(p) && m <= p && (p == 1 || p / 2 < m)
  }

  /** Division with a remainder in [0, d) gives back the quotient and the remainder. */
  lemma DivUnique(m: int, d: int, q: int, r: int)
    requires d > 0 && 0 <= r < d && m == q * d + r
    ensures m / d == q && m % d == r
  {
    var q', r' := m / d, m % d;
    assert d * (q - q') == r' - r;
    if q - q' >= 1 {
      MulAtLeast(d, q - q');
      assert false;
    } else if q - q' <= -1 {
      MulAtLeast(d, q' - q);
      assert false;
    }
  }

  /** Dividing by b and then by 2 is dividing by 2b. */
  lemma DivDiv(a: nat, b: nat)
    requires b > 0
    ensures (a / b) / 2 == a / (b * 2)
  {
    var q, r1, r2 := (a / b) / 2, a % b, (a / b) % 2;
    assert a / b == 2 * q + r2;
    assert a == b * (a / b) + r1;
    assert a == (b * 2) * q + (b * r2 + r1) by {
      assert b * (2 * q + r2) == (b * 2) * q + b * r2;
    }
    assert b * r2 <= b by {
      if r2 == 1 {
      } else {
        assert r2 == 0;
      }
    }
    DivUnique(a, b * 2, q, b * r2 + r1);
  }

  /** A positive multiple of d is at least d. */
  lemma MulAtLeast(d: int, t: int)
    requires d > 0 && t >= 1
    ensures d * t >= d
  {
  }

  /** Taking one factor w off c * w leaves a non-negative (c - 1) * w. */
  lemma PeelFactor(c: nat, w: nat)
    requires c > 0
    ensures c * w == (c - 1) * w + w && (c - 1) * w >= 0
  {
  }

  /** c * w as c additions of w; proofs that step through c tasks of width
      w one at a time use it to stay within linear arithmetic. */
  function Times(c: nat, w: nat): (p: nat)
    decreases c
  {
    if c == 0 then 0 else Times(c - 1, w) + w
  }

  /** Times is multiplication. */
  lemma {:induction false} TimesIsProduct(c: nat, w: nat)
    ensures Times(c, w) == c * w
  {
    if c > 0 {
      TimesIsProduct(c - 1, w);
      PeelFactor(c, w);
    }
  }

  /** Multiplying by a positive factor preserves order. */
  lemma MulMonotone(a: int, b: int, d: int)
    requires a <= b && d > 0
    ensures a * d <= b * d
  {
  }
}
