// Machine words, powers of two, and the facts about products and quotients that the other modules need.
module Arithmetic {

  /** The value of `x` in an unsigned 32-bit integer. */
  function U32(x: int): (r: int)
    ensures 0 <= r < 0x1_0000_0000
    ensures 0 <= x < 0x1_0000_0000 ==> r == x
    ensures -0x1_0000_0000 <= x < 0 ==> r == x + 0x1_0000_0000
    ensures 0x1_0000_0000 <= x < 0x2_0000_0000 ==> r == x - 0x1_0000_0000
  {
    x % 0x1_0000_0000
  }

  /** The value of `x` in a signed 32-bit integer. */
  function S32(x: int): (r: int)
    ensures -0x8000_0000 <= r < 0x8000_0000
    ensures -0x8000_0000 <= x < 0x8000_0000 ==> r == x
  {
    (x + 0x8000_0000) % 0x1_0000_0000 - 0x8000_0000
  }

  function Pow2(n: nat): (p: nat)
    ensures 1 <= p
  {
    if n == 0 then 1 else 2 * Pow2(n - 1)
  }

  lemma Pow2Step(n: nat)
    ensures Pow2(n + 1) == 2 * Pow2(n)
  {
  }

  lemma {:induction false} Pow2Monotone(a: nat, b: nat)
    requires a <= b
    ensures Pow2(a) <= Pow2(b)
    decreases b
  {
    if a < b {
      Pow2Monotone(a, b - 1);
    }
  }

  lemma {:induction false} Pow2Sum(a: nat, b: nat)
    ensures Pow2(a) * Pow2(b) == Pow2(a + b)
  {
    if 0 < a {
      Pow2Sum(a - 1, b);
      Associate(2, Pow2(a - 1), Pow2(b));
    }
  }

  lemma Associate(p: int, q: int, m: int)
    ensures p * q * m == p * (q * m)
  {
  }

  lemma MulAtMost(a: int, b: int, c: nat)
    requires a <= b
    ensures a * c <= b * c
  {
  }

  lemma QuotientNonNegative(m: nat, d: int)
    requires 0 < d
    ensures 0 <= m / d
  {
  }

  lemma NoRemainder(q: int, d: int)
    requires 0 < d
    ensures q * d % d == 0
  {
    var r, p := q * d % d, q * d / d;
    assert r == (q - p) * d;
    if q - p < 0 {
      MulAtMost(q - p, -1, d);
    } else if 0 < q - p {
      MulAtMost(1, q - p, d);
    }
  }
}
