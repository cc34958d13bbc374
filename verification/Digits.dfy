// Numerals: the text of an unsigned number in a base, and the number a text stands for.
module Digits {
  import opened Common
  import opened Arithmetic

  const UPPER := 65
  const LOWER := 97

  /**
   * The character for a digit, computed in an 8-bit unsigned `char`; `letter` is the first letter used.
   * Beyond base 36 this leaves the letters and wraps around.
   */
  function DigitChar(d: nat, letter: byte): byte
  {
    var c := d % 256;
    var l := c + letter - 10;
    if c < 10 then c + 48 else if l < 256 then l else l - 256
  }

  function DigitValue(c: byte): nat
  {
    if c < 58 then (if 48 <= c then c - 48 else 0) else if c < 97 then (if UPPER <= c then c - 55 else 0) else c - 87
  }

  lemma DigitRoundTrip(d: nat, letter: byte)
    requires d < 36 && (letter == UPPER || letter == LOWER)
    ensures DigitValue(DigitChar(d, letter)) == d && DigitChar(d, letter) != 0
    ensures d < 10 ==> DigitChar(d, letter) == d + 48
  {
  }

  /** The characters themselves: digits, then capital letters for `UPPER` and small ones for `LOWER`. */
  lemma DigitCharacters(d: nat)
    requires d < 36
    ensures DigitChar(d, UPPER) as char == "0123456789ABCDEFGHIJKLMNOPQRSTUVWXYZ"[d]
    ensures DigitChar(d, LOWER) as char == "0123456789abcdefghijklmnopqrstuvwxyz"[d]
  {
    hide DigitChar;
    CharacterCodes(d);
    UpperCharacter(d);
    LowerCharacter(d);
  }

  lemma CharacterCodes(d: nat)
    requires d < 36
    ensures DigitChar(d, UPPER) == (if d < 10 then 48 + d else 55 + d) && DigitChar(d, LOWER) == (if d < 10 then 48 + d else 87 + d)
  {
  }

  lemma UpperCharacter(d: nat)
    requires d < 36
    ensures (if d < 10 then 48 + d else 55 + d) as char == "0123456789ABCDEFGHIJKLMNOPQRSTUVWXYZ"[d]
  {
  }

  lemma LowerCharacter(d: nat)
    requires d < 36
    ensures (if d < 10 then 48 + d else 87 + d) as char == "0123456789abcdefghijklmnopqrstuvwxyz"[d]
  {
  }

  /** The numeral of `v`, most significant digit first. */
  function Numeral(v: nat, base: nat, letter: byte): (s: seq<byte>)
    requires 2 <= base
    ensures 0 < |s|
    decreases v
  {
    (if v < base then [] else Numeral(Quotient(v, base), base, letter)) + [DigitChar(v % base, letter)]
  }

  function Quotient(v: nat, base: nat): (q: nat)
    requires 2 <= base
    ensures 2 * q <= v
  {
    Division(v, base);
    v / base
  }

  /** The number a text stands for. */
  function Value(s: seq<byte>, base: nat): nat
  {
    if s == [] then 0 else Value(s[..|s| - 1], base) * base + DigitValue(s[|s| - 1])
  }

  /** One step of writing a numeral, least significant digit first. */
  lemma NumeralStep(v: nat, base: nat, letter: byte) returns (q: nat, d: nat)
    requires 2 <= base
    ensures q == v / base && d == v % base && d < base && v == q * base + d
    ensures v < base <==> q == 0
    ensures q == 0 ==> d == v && Numeral(v, base, letter) == [DigitChar(d, letter)]
    ensures q != 0 ==> 2 * q <= v && Numeral(v, base, letter) == Numeral(q, base, letter) + [DigitChar(d, letter)]
  {
    hide DigitChar;
    q, d := Quotient(v, base), v % base;
    Division(v, base);
    assert v < base ==> Numeral(v, base, letter) == [] + [DigitChar(d, letter)];
  }

  /** The last character of a numeral stands for `v % base`, and what is in front of it is the numeral of `v / base`. */
  lemma NumeralEnds(v: nat, base: nat)
    requires 2 <= base <= 36
    ensures var s, t := Numeral(v, base, UPPER), Numeral(v, base, LOWER);
            && s[|s| - 1] as char == "0123456789ABCDEFGHIJKLMNOPQRSTUVWXYZ"[v % base]
            && t[|t| - 1] as char == "0123456789abcdefghijklmnopqrstuvwxyz"[v % base]
            && (v < base ==> |s| == |t| == 1)
            && (base <= v ==> s[..|s| - 1] == Numeral(v / base, base, UPPER) && t[..|t| - 1] == Numeral(v / base, base, LOWER))
  {
    hide Numeral, DigitChar;
    var q, d := NumeralStep(v, base, UPPER);
    var q', d' := NumeralStep(v, base, LOWER);
    DigitCharacters(d);
  }

  lemma Division(v: nat, base: nat)
    requires 2 <= base
    ensures v == v / base * base + v % base && 0 <= v % base < base && 2 * (v / base) <= v
    ensures v < base <==> v / base == 0
    ensures v < base ==> v % base == v
  {
    var q := v / base;
    assert v == q * base + v % base;
    assert q * 2 <= q * base by {
      MulAtMost(2, base, q);
    }
  }

  /** A numeral stands for its number. */
  lemma {:induction false} NumeralValue(v: nat, base: nat, letter: byte)
    requires 2 <= base <= 36 && (letter == UPPER || letter == LOWER)
    ensures Value(Numeral(v, base, letter), base) == v
  {
    hide DigitChar, DigitValue, Numeral;
    var q, d := NumeralStep(v, base, letter);
    DigitRoundTrip(d, letter);
    if q == 0 {
      LastDigit([], DigitChar(d, letter), base);
    } else {
      NumeralValue(q, base, letter);
      LastDigit(Numeral(q, base, letter), DigitChar(d, letter), base);
    }
  }

  lemma LastDigit(s: seq<byte>, c: byte, base: nat)
    ensures Value(s + [c], base) == Value(s, base) * base + DigitValue(c)
  {
    assert (s + [c])[..|s|] == s;
  }

  /** Up to base 36 a numeral holds no zero byte, and it starts with the digit 0 only for the number 0. */
  lemma {:induction false} NumeralIsCanonical(v: nat, base: nat, letter: byte)
    requires 2 <= base <= 36 && (letter == UPPER || letter == LOWER)
    ensures forall i :: 0 <= i < |Numeral(v, base, letter)| ==> Numeral(v, base, letter)[i] != 0
    ensures Numeral(v, base, letter)[0] == 48 ==> v == 0
  {
    hide DigitChar, Numeral, DigitValue;
    var q, d := NumeralStep(v, base, letter);
    DigitRoundTrip(d, letter);
    LeadingDigit(d, letter);
    if q != 0 {
      NumeralIsCanonical(q, base, letter);
    }
  }

  lemma LeadingDigit(d: nat, letter: byte)
    requires d < 36 && (letter == UPPER || letter == LOWER)
    ensures DigitChar(d, letter) == 48 ==> d == 0
  {
  }

  /** A decimal numeral holds digits only. */
  lemma {:induction false} DecimalDigits(v: nat)
    ensures forall i :: 0 <= i < |Numeral(v, 10, UPPER)| ==> 48 <= Numeral(v, 10, UPPER)[i] < 58
  {
    hide Numeral;
    var q, d := NumeralStep(v, 10, UPPER);
    if q != 0 {
      DecimalDigits(q);
    }
  }

  /** A number of `n` bits has at most `n` digits in any base. */
  lemma {:induction false} NumeralLength(v: nat, base: nat, letter: byte, n: nat)
    requires 2 <= base && v < Pow2(n) && 0 < n
    ensures |Numeral(v, base, letter)| <= n
  {
    hide DigitChar, Numeral;
    var q, d := NumeralStep(v, base, letter);
    if q != 0 {
      NumeralLength(q, base, letter, n - 1);
    }
  }

  /** The value of a numeral's front is at most its value. */
  lemma {:induction false} FrontValue(s: seq<byte>, k: nat)
    requires k <= |s|
    ensures Value(s[..k], 10) <= Value(s, 10)
  {
    if k < |s| {
      FrontValue(s[..|s| - 1], k);
      assert s[..|s| - 1][..k] == s[..k];
    } else {
      assert s[..k] == s;
    }
  }
}
