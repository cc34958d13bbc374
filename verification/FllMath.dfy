// The multiplier and the divider of a frequency, kernel/fll-v1.c.
module FllMath {
  import opened Arithmetic

  const REF_CLOCK := 0x8000
  const LOG2_MAXM := 14

  /** The position of the highest bit. */
  function Log2(x: nat): (n: nat)
    requires 0 < x
  {
    if x == 1 then 0 else 1 + Log2(x / 2)
  }

  lemma {:induction false} Log2Bounds(x: nat)
    requires 0 < x
    ensures Pow2(Log2(x)) <= x < 2 * Pow2(Log2(x))
  {
    if x != 1 {
      Log2Bounds(x / 2);
    }
  }

  /** The shift for a frequency whose highest bit is `n`, in unsigned 32-bit arithmetic. */
  function ShiftOf(n: nat): nat
  {
    var log2M := U32(n - 15);
    var d := U32(LOG2_MAXM - log2M) / 2;
    if 1 > d then 1 else d
  }

  function Shift(freq: nat): nat
    requires 0 < freq
  {
    ShiftOf(Log2(freq))
  }

  lemma ShiftRange(n: nat)
    requires n < 32
    ensures ShiftOf(n) < 32 <==> n < 30
    ensures n < 30 ==> 1 <= ShiftOf(n) <= 14 && n + ShiftOf(n) <= 30
  {
    hide U32;
  }

  lemma Log2Below(freq: nat, n: nat)
    requires 0 < freq
    ensures Log2(freq) < n <==> freq < Pow2(n)
  {
    Log2Bounds(freq);
    hide Log2, Pow2;
    var l := Log2(freq);
    Pow2Step(l);
    if l < n {
      Pow2Monotone(l + 1, n);
    } else {
      Pow2Monotone(n, l);
    }
  }

  /** The processor can shift by the result exactly below 2^30 Hz. */
  lemma ShiftFitsIff(freq: nat)
    requires 0 < freq < 0x1_0000_0000
    ensures Shift(freq) < 32 <==> freq < 0x4000_0000
    ensures freq < 0x4000_0000 ==> 1 <= Shift(freq) <= 14 && Log2(freq) + Shift(freq) <= 30
  {
    hide Log2, Pow2, ShiftOf;
    Pow2Values();
    Log2Below(freq, 30);
    Log2Below(freq, 32);
    ShiftRange(Log2(freq));
  }

  lemma Pow2Values()
    ensures Pow2(15) == 0x8000 && Pow2(30) == 0x4000_0000 && Pow2(31) == 0x8000_0000 && Pow2(32) == 0x1_0000_0000
  {
    assert Pow2(5) == 0x20;
    assert Pow2(10) == 0x400;
    assert Pow2(15) == 0x8000;
    assert Pow2(20) == 0x10_0000;
    assert Pow2(25) == 0x200_0000;
    assert Pow2(30) == 0x4000_0000;
  }

  /** `a / p`. */
  function Div(a: nat, p: nat): (q: nat)
    requires 0 < p
    ensures p * q <= a < p * q + p
  {
    DivFacts(a, p);
    a / p
  }

  lemma DivFacts(a: nat, p: nat)
    requires 0 < p
    ensures 0 <= a / p && p * (a / p) <= a < p * (a / p) + p
  {
    assert a == p * (a / p) + a % p;
    QuotientNonNegative(a, p);
  }

  /** The multiplier for a frequency. */
  function Mult(freq: nat): (m: nat)
    requires 0 < freq
  {
    Div(freq * Pow2(Shift(freq)), REF_CLOCK)
  }

  /** The frequency of a multiplier and a divider: the reference clock times `mult`, over 2 to the `div - 1`. */
  function FreqOf(mult: nat, div: nat): nat
    requires 0 < div
  {
    Div(REF_CLOCK * mult, Pow2(div - 1))
  }

  /** What setting a frequency gives. */
  function RealFreq(freq: nat): nat
    requires 0 < freq
  {
    FreqOf(Mult(freq), Shift(freq) + 1)
  }

  /** Everything fits: the shifted frequency 31 bits, the multiplier its 16-bit field. */
  lemma MultFits(freq: nat)
    requires 0 < freq < 0x4000_0000
    ensures freq * Pow2(Shift(freq)) < 0x8000_0000
    ensures Mult(freq) < 0x1_0000
    ensures REF_CLOCK * Mult(freq) <= freq * Pow2(Shift(freq)) < REF_CLOCK * Mult(freq) + REF_CLOCK
  {
    ShiftFitsIff(freq);
    Log2Bounds(freq);
    Pow2Values();
    hide Log2, Pow2, Shift, Div;
    var n, d := Log2(freq), Shift(freq);
    Pow2Step(n);
    Pow2Sum(n + 1, d);
    Pow2Monotone(n + 1 + d, 31);
    Product(freq, Pow2(n + 1), Pow2(d));
  }

  lemma Product(a: nat, b: nat, c: nat)
    requires a < b && 0 < c
    ensures a * c < b * c
  {
  }

  /** A multiple of `p` plus less than `p`, divided by `p`. */
  lemma DivideMultiple(p: nat, k: nat, r: nat)
    requires r < p
    ensures Div(p * k + r, p) == k
  {
    hide Div;
    var q := Div(p * k + r, p);
    if q < k {
      MulAtMost(q + 1, k, p);
    } else if k < q {
      MulAtMost(k + 1, q, p);
    }
  }

  /** The result is exact: the rounding term changes nothing. */
  lemma ResultIsExact(mult: nat, d: nat)
    requires 1 <= d <= 15
    ensures FreqOf(mult, d + 1) == Pow2(15 - d) * mult
    ensures Div(REF_CLOCK * mult + Pow2(d - 1), Pow2(d)) == Pow2(15 - d) * mult
    ensures REF_CLOCK * mult == Pow2(d) * (Pow2(15 - d) * mult)
  {
    hide Pow2, Div;
    RefClockIs(mult, d);
    Pow2Step(d - 1);
    var p, k := Pow2(d), Pow2(15 - d) * mult;
    DivideMultiple(p, k, 0);
    DivideMultiple(p, k, Pow2(d - 1));
  }

  lemma RefClockIs(mult: nat, d: nat)
    requires d <= 15
    ensures REF_CLOCK * mult == Pow2(d) * (Pow2(15 - d) * mult)
  {
    Pow2Sum(d, 15 - d);
    Pow2Values();
    hide *;
    Associate(Pow2(d), Pow2(15 - d), mult);
  }

  /** The real frequency is below the requested one by less than one step of the multiplier. */
  lemma ErrorBound(freq: nat)
    requires 0 < freq < 0x4000_0000
    ensures Shift(freq) <= 14 && RealFreq(freq) <= freq < RealFreq(freq) + Pow2(15 - Shift(freq))
  {
    ShiftFitsIff(freq);
    MultFits(freq);
    var d := Shift(freq);
    ResultIsExact(Mult(freq), d);
    Pow2Sum(d, 15 - d);
    Pow2Values();
    hide Pow2, Shift, Mult;
    Cancel(Pow2(d), RealFreq(freq), freq, Pow2(15 - d));
  }

  /** From p*k <= p*f < p*k + p*s. */
  lemma Cancel(p: nat, k: nat, f: nat, s: nat)
    requires 0 < p && p * k <= f * p < p * k + p * s
    ensures k <= f < k + s
  {
    if f < k {
      Product(f, k, p);
    }
    if k + s <= f {
      MulAtMost(k + s, f, p);
    }
  }

  lemma ShiftIs(n: nat)
    requires n < 30
    ensures n < 28 ==> 28 - n <= 2 * ShiftOf(n) <= 29 - n
    ensures 28 <= n ==> ShiftOf(n) == 1
  {
    hide U32;
  }

  /**
   * Which shift is chosen, without logarithms: below 2^28 Hz the largest `s` for which the frequency times 4 to the `s`
   * is below 2^30, and from there on 1.
   */
  lemma ShiftChoice(freq: nat)
    requires 0 < freq < 0x4000_0000
    ensures freq < 0x1000_0000 ==> freq * Pow2(2 * Shift(freq)) < 0x4000_0000 <= freq * Pow2(2 * Shift(freq) + 2)
    ensures 0x1000_0000 <= freq ==> Shift(freq) == 1
  {
    hide Log2, Pow2, ShiftOf;
    Pow2Values();
    Pow2Of28();
    Log2Below(freq, 28);
    Log2Below(freq, 30);
    ShiftIs(Log2(freq));
    if freq < 0x1000_0000 {
      ShiftedInto30Bits(freq, Log2(freq), 2 * Shift(freq));
    }
  }

  lemma Pow2Of28()
    ensures Pow2(28) == 0x1000_0000 && Pow2(14) == 0x4000
  {
    assert Pow2(7) == 0x80;
    assert Pow2(14) == 0x4000;
    assert Pow2(21) == 0x20_0000;
  }

  lemma ShiftedInto30Bits(freq: nat, n: nat, s: nat)
    requires 0 < freq && n == Log2(freq) && 28 <= n + s <= 29
    ensures freq * Pow2(s) < 0x4000_0000 <= freq * Pow2(s + 2)
  {
    Log2Bounds(freq);
    Pow2Values();
    hide Log2, Pow2;
    Pow2Step(n);
    Pow2Sum(n + 1, s);
    Pow2Monotone(n + 1 + s, 30);
    Product(freq, Pow2(n + 1), Pow2(s));
    Pow2Sum(n, s + 2);
    Pow2Monotone(30, n + s + 2);
    MulAtMost(Pow2(n), freq, Pow2(s + 2));
  }

  /** The error in terms of the frequency alone: less than twice its square root. */
  lemma ErrorBelowRoot(freq: nat)
    requires 0 < freq < 0x4000_0000
    ensures RealFreq(freq) <= freq && (freq - RealFreq(freq)) * (freq - RealFreq(freq)) < 4 * freq
  {
    hide Pow2, Shift, RealFreq;
    ErrorBound(freq);
    ShiftFitsIff(freq);
    ShiftChoice(freq);
    var s, e := Shift(freq), freq - RealFreq(freq);
    var step := Pow2(15 - s);
    Squares(e, step);
    Pow2Sum(15 - s, 15 - s);
    if freq < 0x1000_0000 {
      StepBelowRoot(freq, s, step);
    } else {
      Pow2Of28();
    }
  }

  lemma StepBelowRoot(freq: nat, s: nat, step: nat)
    requires 1 <= s <= 14 && step * step == Pow2(30 - 2 * s) && 0x4000_0000 <= freq * Pow2(2 * s + 2)
    ensures step * step <= 4 * freq
  {
    hide Pow2;
    Pow2Values();
    Pow2Sum(30 - 2 * s, 2 * s);
    Pow2Step(2 * s);
    Pow2Step(2 * s + 1);
    var p := Pow2(2 * s);
    Quadruple(freq, p);
    if 4 * freq < step * step {
      Product(4 * freq, step * step, p);
    }
  }

  lemma Quadruple(freq: int, p: int)
    ensures freq * (2 * (2 * p)) == 4 * freq * p
  {
  }

  lemma Squares(e: nat, step: nat)
    requires e < step
    ensures e * e < step * step
  {
    MulAtMost(e, step, e);
    Product(e, step, step);
  }

  lemma ShiftDecreases(n: nat, m: nat)
    requires n <= m < 30
    ensures ShiftOf(m) <= ShiftOf(n)
  {
    hide U32;
  }

  lemma LowerFreqHigherShift(freq: nat, lower: nat)
    requires 0 < lower <= freq < 0x4000_0000
    ensures Shift(freq) <= Shift(lower) <= 14
  {
    hide Log2, Pow2, ShiftOf;
    Pow2Values();
    Log2Below(freq, 30);
    Log2Below(lower, 30);
    Log2Below(lower, Log2(freq) + 1);
    Log2Bounds(freq);
    Pow2Step(Log2(freq));
    ShiftDecreases(Log2(lower), Log2(freq));
    ShiftFitsIff(lower);
  }

  /** A frequency that can be had exactly is not changed any more. */
  lemma RealFreqIsFixed(freq: nat)
    requires 0 < freq < 0x4000_0000 && 0 < RealFreq(freq)
    ensures RealFreq(RealFreq(freq)) == RealFreq(freq)
  {
    hide Pow2, Shift, Mult, Div, FreqOf;
    ErrorBound(freq);
    ShiftFitsIff(freq);
    var k, d, m := RealFreq(freq), Shift(freq), Mult(freq);
    LowerFreqHigherShift(freq, k);
    ResultIsExact(m, d);
    var e := Shift(k);
    MultOfExact(k, d, e, m);
    ResultIsExact(Mult(k), e);
    Pow2Sum(15 - e, e - d);
    Associate(Pow2(15 - e), Pow2(e - d), m);
  }

  function Times(a: nat, b: nat): (p: nat)
    ensures p == a * b
  {
    ProductNonNegative(a, b);
    a * b
  }

  lemma ProductNonNegative(a: nat, b: nat)
    ensures 0 <= a * b
  {
  }

  lemma MultOfExact(k: nat, d: nat, e: nat, m: nat)
    requires d <= e <= 15 && 0 < k == Pow2(15 - d) * m && Shift(k) == e
    ensures Mult(k) == Pow2(e - d) * m
  {
    hide Pow2, Shift, Div;
    Pow2Sum(15 - d, e);
    Pow2Sum(15, e - d);
    Pow2Values();
    Associate(Pow2(e), Pow2(15 - d), m);
    Associate(REF_CLOCK, Pow2(e - d), m);
    var q: nat := Times(Pow2(e - d), m);
    DivideMultiple(REF_CLOCK, q, 0);
  }
}
