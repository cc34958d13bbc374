// The checksum of Crc32 as what it stands for: the remainder of a long division of polynomials over bits.
module Crc32Division {
  import opened Crc32

  /** The lowest `n` bits, lowest first; in a reflected checksum that is the coefficient of the highest power first. */
  function Bits(x: bv32, n: nat): (s: seq<bool>)
    ensures |s| == n
  {
    if n == 0 then [] else [Odd(x)] + Bits(Half(x), n - 1)
  }

  function ByteBits(b: bv8): (s: seq<bool>)
    ensures |s| == 8
  {
    [b & 1 != 0, b & 2 != 0, b & 4 != 0, b & 8 != 0, b & 16 != 0, b & 32 != 0, b & 64 != 0, b & 128 != 0]
  }

  /** The coefficients of the message. */
  function MessageBits(m: seq<bv8>): (s: seq<bool>)
    ensures |s| == 8 * |m|
  {
    if m == [] then [] else ByteBits(m[0]) + MessageBits(m[1..])
  }

  function Zeros(n: nat): (s: seq<bool>)
    ensures |s| == n && forall i :: 0 <= i < n ==> !s[i]
  {
    seq(n, i => false)
  }

  /** The divisor without its highest power x^32: the exponents of section 8 of RFC 1952, from 31 down to 0. */
  function Divisor(): (s: seq<bool>)
    ensures |s| == 32
    ensures forall i :: 0 <= i < 32 ==> (s[i] <==> 31 - i in [26, 23, 22, 16, 12, 11, 10, 8, 7, 5, 4, 2, 1, 0])
  {
    seq(32, i requires 0 <= i < 32 => 31 - i in [26, 23, 22, 16, 12, 11, 10, 8, 7, 5, 4, 2, 1, 0])
  }

  /** `t` is added to the first coefficients of `s`. */
  function Added(s: seq<bool>, t: seq<bool>): (r: seq<bool>)
    requires |t| <= |s|
    ensures |r| == |s| && forall i :: 0 <= i < |s| ==> (r[i] <==> if i < |t| then s[i] != t[i] else s[i])
  {
    seq(|s|, i requires 0 <= i < |s| => if i < |t| then s[i] != t[i] else s[i])
  }

  /** Long division: the divisor is taken off wherever the highest power is left, until 32 coefficients remain. */
  function Remainder(s: seq<bool>): (r: seq<bool>)
    requires 32 <= |s|
    ensures |r| == 32
    decreases |s|
  {
    if |s| == 32 then s else if s[0] then Remainder(Added(s[1..], Divisor())) else Remainder(s[1..])
  }

  /** The first 32 coefficients complemented. */
  function Complemented(s: seq<bool>): (r: seq<bool>)
    requires 32 <= |s|
    ensures |r| == |s| && forall i :: 0 <= i < |s| ==> (r[i] <==> if i < 32 then !s[i] else s[i])
  {
    seq(|s|, i requires 0 <= i < |s| => if i < 32 then !s[i] else s[i])
  }

  // ----- Words as coefficients

  lemma OddXor(x: bv32, y: bv32)
    ensures Odd(Xor(x, y)) <==> Odd(x) != Odd(y)
    ensures Half(Xor(x, y)) == Xor(Half(x), Half(y))
  {
  }

  lemma {:induction false} BitsXor(x: bv32, y: bv32, n: nat)
    ensures Bits(Xor(x, y), n) == Added(Bits(x, n), Bits(y, n))
    decreases n
  {
    hide Odd, Half, Xor;
    if 0 < n {
      OddXor(x, y);
      BitsXor(Half(x), Half(y), n - 1);
    }
  }

  /** `x` shifted right `n` times. */
  function Halved(x: bv32, n: nat): bv32
  {
    if n == 0 then x else Halved(Half(x), n - 1)
  }

  lemma {:induction false} HalvedTwice(x: bv32, m: nat, n: nat)
    ensures Halved(Halved(x, m), n) == Halved(x, m + n)
    decreases m
  {
    hide Half;
    if 0 < m {
      HalvedTwice(Half(x), m - 1, n);
    }
  }

  lemma {:induction false} BitsSplit(x: bv32, m: nat, n: nat)
    ensures Bits(x, m + n) == Bits(x, m) + Bits(Halved(x, m), n)
    decreases m
  {
    hide Half, Odd;
    if 0 < m {
      BitsSplit(Half(x), m - 1, n);
    }
  }

  function Right4(x: bv32): bv32 { x >> 4 }

  function Right8(x: bv32): bv32 { x >> 8 }

  lemma HalvedFour(x: bv32)
    ensures Halved(x, 4) == Right4(x)
  {
    hide Half, Right4;
    var a := Half(x);
    var b := Half(a);
    var c := Half(b);
    assert Halved(x, 4) == Halved(a, 3);
    assert Halved(a, 3) == Halved(b, 2);
    assert Halved(b, 2) == Halved(c, 1);
    assert Halved(c, 1) == Halved(Half(c), 0);
    FourHalves(x);
  }

  lemma FourHalves(x: bv32)
    ensures Half(Half(Half(Half(x)))) == Right4(x)
  {
  }

  lemma HalvedEight(x: bv32)
    ensures Halved(x, 8) == Right8(x)
  {
    hide Halved, Right4, Right8;
    HalvedFour(x);
    HalvedFour(Right4(x));
    HalvedTwice(x, 4, 4);
    TwoShifts(x);
  }

  lemma TwoShifts(x: bv32)
    ensures Right4(Right4(x)) == Right8(x)
  {
  }

  /** A word has 32 bits, and a byte 8. */
  lemma NothingLeft(x: bv32, b: bv8)
    ensures Halved(x, 32) == 0 && Halved(b as bv32, 8) == 0
  {
    hide Halved, Right8;
    HalvedEight(x);
    HalvedEight(Right8(x));
    HalvedTwice(x, 8, 8);
    HalvedEight(Right8(Right8(x)));
    HalvedTwice(x, 16, 8);
    HalvedEight(Right8(Right8(Right8(x))));
    HalvedTwice(x, 24, 8);
    HalvedEight(b as bv32);
    NoBitsLeft(x, b);
  }

  lemma NoBitsLeft(x: bv32, b: bv8)
    ensures Right8(Right8(Right8(Right8(x)))) == 0 && Right8(b as bv32) == 0
  {
  }

  lemma {:induction false} BitsOfZero(n: nat)
    ensures Bits(0, n) == Zeros(n)
  {
    if 0 < n {
      HalfOfZero();
      BitsOfZero(n - 1);
    }
  }

  lemma HalfOfZero()
    ensures Half(0) == 0 && !Odd(0)
  {
  }

  /** A shifted word has a clear top bit. */
  lemma BitsOfHalf(x: bv32)
    ensures Bits(Half(x), 32) == Bits(Half(x), 31) + [false]
  {
    hide Half, Odd, Halved, Bits;
    BitsSplit(Half(x), 31, 1);
    NothingLeft(x, 0);
    HalvedStep(x, 31);
    BitsOfZero(1);
  }

  lemma HalvedStep(x: bv32, n: nat)
    ensures Halved(x, n + 1) == Halved(Half(x), n)
  {
  }

  /** A byte in a word. */
  lemma BitsOfByte(b: bv8)
    ensures Bits(b as bv32, 32) == ByteBits(b) + Zeros(24)
  {
    hide Odd, Half, Halved;
    BitsSplit(b as bv32, 8, 24);
    NothingLeft(0, b);
    BitsOfZero(24);
    EightBits(b);
  }

  lemma EightBits(b: bv8)
    ensures Bits(b as bv32, 8) == ByteBits(b)
  {
    hide Bits, FourBits, Right4, ByteBits;
    var x := b as bv32;
    Nibble(x, 4);
    Nibble(Right4(x), 0);
    LowBits(b);
  }

  lemma LowBits(b: bv8)
    ensures var x := b as bv32;
            FourBits(x) + FourBits(Right4(x)) == ByteBits(b)
  {
  }

  function FourBits(x: bv32): (s: seq<bool>)
    ensures |s| == 4
  {
    [x & 1 != 0, x & 2 != 0, x & 4 != 0, x & 8 != 0]
  }

  lemma Nibble(x: bv32, n: nat)
    ensures Bits(x, 4 + n) == FourBits(x) + Bits(Right4(x), n)
  {
    hide Half, Odd, FourBits, Halved, Right4, Bits;
    BitsSplit(x, 4, n);
    HalvedFour(x);
    FirstFour(x);
  }

  lemma FirstFour(x: bv32)
    ensures Bits(x, 4) == FourBits(x)
  {
    assert Bits(x, 4) == [Odd(x)] + Bits(Half(x), 3);
    assert Bits(Half(x), 3) == [Odd(Half(x))] + Bits(Half(Half(x)), 2);
    assert Bits(Half(Half(x)), 2) == [Odd(Half(Half(x)))] + Bits(Half(Half(Half(x))), 1);
    assert Bits(Half(Half(Half(x))), 1) == [Odd(Half(Half(Half(x))))] + Bits(Half(Half(Half(Half(x)))), 0);
    OddBits(x);
  }

  lemma OddBits(x: bv32)
    ensures Odd(x) <==> x & 1 != 0
    ensures Odd(Half(x)) <==> x & 2 != 0
    ensures Odd(Half(Half(x))) <==> x & 4 != 0
    ensures Odd(Half(Half(Half(x)))) <==> x & 8 != 0
  {
  }

  /** The constant of the program is the divisor. */
  lemma PolynomialIsDivisor()
    ensures Bits(POLYNOMIAL, 32) == Divisor()
  {
    hide Bits, FourBits;
    Nibble(0xEDB8_8320, 28);
    Nibble(0xEDB8_832, 24);
    Nibble(0xEDB8_83, 20);
    Nibble(0xEDB8_8, 16);
    Nibble(0xEDB8, 12);
    Nibble(0xEDB, 8);
    Nibble(0xED, 4);
    Nibble(0xE, 0);
    PolynomialNibbles();
  }

  lemma PolynomialNibbles()
    ensures FourBits(0xEDB8_8320) + FourBits(0xEDB8_832) + FourBits(0xEDB8_83) + FourBits(0xEDB8_8)
          + FourBits(0xEDB8) + FourBits(0xEDB) + FourBits(0xED) + FourBits(0xE) == Divisor()
  {
  }

  // ----- The register is the front of what is left to divide

  /** What is left to divide when the register is `x` and the coefficients `c` have not been taken in. */
  function Left(c: seq<bool>, x: bv32): (s: seq<bool>)
    requires 32 <= |c|
    ensures |s| == |c|
  {
    Added(c, Bits(x, 32))
  }

  lemma LeftTail(c: seq<bool>, x: bv32)
    requires 32 <= |c|
    ensures var s := Left([false] + c, x);
            s[0] == Odd(x) && s[1..] == Left(c, Half(x))
  {
    hide Half, Odd;
    BitsOfHalf(x);
    var low := Bits(Half(x), 31);
    assert Bits(x, 32) == [Odd(x)] + low;
    hide Bits;
    var s, t := Left([false] + c, x), Left(c, Half(x));
    forall i | 0 <= i < |c|
      ensures s[1..][i] == t[i]
    {
      assert i < 31 ==> Bits(x, 32)[i + 1] == low[i] && Bits(Half(x), 32)[i] == low[i];
    }
  }

  lemma LeftXor(c: seq<bool>, x: bv32, y: bv32)
    requires 32 <= |c|
    ensures Added(Left(c, x), Bits(y, 32)) == Left(c, Xor(x, y))
  {
    hide Bits, Xor;
    BitsXor(x, y, 32);
  }

  /** One turn of the inner loop is one step of the division. */
  lemma OneStep(c: seq<bool>, x: bv32)
    requires 32 <= |c|
    ensures Remainder(Left([false] + c, x)) == Remainder(Left(c, BitStep(x)))
  {
    hide Half, Odd, Xor, Divisor, BitStep, Left, Bits, Added;
    LeftTail(c, x);
    MaskedStep(x);
    PolynomialIsDivisor();
    LeftXor(c, Half(x), POLYNOMIAL);
  }

  lemma MaskedStep(x: bv32)
    ensures BitStep(x) == if Odd(x) then Xor(Half(x), POLYNOMIAL) else Half(x)
  {
  }

  lemma {:induction false} SomeSteps(c: seq<bool>, x: bv32, n: nat)
    requires 32 <= |c|
    ensures Remainder(Left(Zeros(n) + c, x)) == Remainder(Left(c, Steps(x, n)))
    decreases n
  {
    hide BitStep, Left, Remainder;
    if n == 0 {
      assert Zeros(0) + c == c;
    } else {
      assert Zeros(n) + c == [false] + (Zeros(n - 1) + c);
      OneStep(Zeros(n - 1) + c, x);
      SomeSteps(c, BitStep(x), n - 1);
      StepsCompose(x, 1, n - 1);
      assert Steps(x, 1) == BitStep(Steps(x, 0));
    }
  }

  /** Taking a byte in. */
  lemma ByteTakenIn(c: seq<bool>, x: bv32, b: bv8)
    requires 32 <= |c|
    ensures Left(ByteBits(b) + c, x) == Left(Zeros(8) + c, Xor(x, b as bv32))
  {
    hide Xor, ByteBits;
    BitsOfByte(b);
    BitsXor(x, b as bv32, 32);
    hide Bits;
  }

  /** The register after a message is the remainder of everything taken in. */
  lemma {:induction false} RegisterIsRemainder(x: bv32, m: seq<bv8>)
    ensures Bits(Feed(x, m), 32) == Remainder(Left(MessageBits(m) + Zeros(32), x))
    decreases |m|
  {
    hide Bits, Steps, Xor, ByteBits;
    if m == [] {
      FeedOneMore(x, [], 0);
      EmptyMessage(x);
    } else {
      var rest := m[1..];
      var c := MessageBits(rest) + Zeros(32);
      FeedConcat(x, [m[0]], rest);
      assert [m[0]] + rest == m;
      FeedOneMore(x, [], m[0]);
      assert [] + [m[0]] == [m[0]];
      var next := Steps(Xor(x, m[0] as bv32), 8);
      RegisterIsRemainder(next, rest);
      ByteTakenIn(c, x, m[0]);
      SomeSteps(c, Xor(x, m[0] as bv32), 8);
      assert MessageBits(m) + Zeros(32) == ByteBits(m[0]) + c;
    }
  }

  lemma EmptyMessage(x: bv32)
    ensures Left(MessageBits([]) + Zeros(32), x) == Bits(x, 32)
  {
    hide Bits;
    assert MessageBits([]) + Zeros(32) == Zeros(32);
  }

  lemma {:induction false} OnesAdded(s: seq<bool>)
    requires 32 <= |s|
    ensures Left(s, 0xFFFF_FFFF) == Complemented(s)
  {
    AllOnes();
  }

  lemma AllOnes()
    ensures forall i :: 0 <= i < 32 ==> Bits(0xFFFF_FFFF, 32)[i]
  {
    hide Bits;
    Nibble(0xFFFF_FFFF, 28);
    Nibble(0xFFF_FFFF, 24);
    Nibble(0xFF_FFFF, 20);
    Nibble(0xF_FFFF, 16);
    Nibble(0xFFFF, 12);
    Nibble(0xFFF, 8);
    Nibble(0xFF, 4);
    Nibble(0xF, 0);
  }

  /**
   * The checksum: the message, followed by 32 zeros and with its first 32 bits complemented, is divided by the
   * polynomial of CRC-32; the checksum is the complement of the remainder.
   */
  lemma CrcIsRemainder(m: seq<bv8>)
    ensures Bits(Crc(m), 32) == Complemented(Remainder(Complemented(MessageBits(m) + Zeros(32))))
  {
    hide Bits, Remainder, MessageBits;
    var s := MessageBits(m) + Zeros(32);
    OnesAdded(s);
    RegisterIsRemainder(0xFFFF_FFFF, m);
    var r := Feed(0xFFFF_FFFF, m);
    hide Feed;
    BitsXor(r, 0xFFFF_FFFF, 32);
    OnesAdded(Bits(r, 32));
  }

  // ----- Known values

  /** The empty message, and the check value of CRC-32: the checksum of the nine bytes "123456789". */
  lemma KnownValues()
    ensures Crc([]) == 0
    ensures Crc([0x31, 0x32, 0x33, 0x34, 0x35, 0x36, 0x37, 0x38, 0x39]) == 0xCBF4_3926
  {
    hide Feed, Steps;
    FeedOneMore(0xFFFF_FFFF, [], 0);
    var a: seq<bv8>, b: seq<bv8> := [0x31, 0x32, 0x33, 0x34], [0x35, 0x36, 0x37, 0x38];
    FirstWord();
    SecondWord();
    LastByte();
    CheckWords();
    hide Word, Xor;
    FeedFour(0xFFFF_FFFF, 0x31, 0x32, 0x33, 0x34);
    FeedFour(0x641C_1F5C, 0x35, 0x36, 0x37, 0x38);
    FeedConcat(0xFFFF_FFFF, a, b);
    FeedOneMore(0xFFFF_FFFF, a + b, 0x39);
    assert a + b + [0x39] == [0x31, 0x32, 0x33, 0x34, 0x35, 0x36, 0x37, 0x38, 0x39];
  }

  lemma CheckWords()
    ensures Xor(0xFFFF_FFFF, Word(0x31, 0x32, 0x33, 0x34)) == 0xCBCC_CDCE
    ensures Xor(0x641C_1F5C, Word(0x35, 0x36, 0x37, 0x38)) == 0x5C2B_2969
    ensures Xor(0x651F_2550, 0x39 as bv8 as bv32) == 0x651F_2569
    ensures Xor(0x340B_C6D9, 0xFFFF_FFFF) == 0xCBF4_3926 && Xor(0xFFFF_FFFF, 0xFFFF_FFFF) == 0
  {
  }

  lemma FirstWord()
    ensures Steps(0xCBCC_CDCE, 32) == 0x641C_1F5C
  {
    FourSteps(0xCBCC_CDCE);
    assert Steps(0xCBCC_CDCE, 4) == 0xACB6_2EA4;
    FourSteps(0xACB6_2EA4);
    assert Steps(0xACB6_2EA4, 4) == 0x7C17_237A;
    StepsCompose(0xCBCC_CDCE, 4, 4);
    FourSteps(0x7C17_237A);
    assert Steps(0x7C17_237A, 4) == 0xD117_D1DF;
    StepsCompose(0xCBCC_CDCE, 8, 4);
    FourSteps(0xD117_D1DF);
    assert Steps(0xD117_D1DF, 4) == 0xB0AC_8F01;
    StepsCompose(0xCBCC_CDCE, 12, 4);
    FourSteps(0xB0AC_8F01);
    assert Steps(0xB0AC_8F01, 4) == 0x16BD_D894;
    StepsCompose(0xCBCC_CDCE, 16, 4);
    FourSteps(0x16BD_D894);
    assert Steps(0x16BD_D894, 4) == 0x77B7_9C19;
    StepsCompose(0xCBCC_CDCE, 20, 4);
    FourSteps(0x77B7_9C19);
    assert Steps(0x77B7_9C19, 4) == 0xF774_EA85;
    StepsCompose(0xCBCC_CDCE, 24, 4);
    FourSteps(0xF774_EA85);
    assert Steps(0xF774_EA85, 4) == 0x641C_1F5C;
    StepsCompose(0xCBCC_CDCE, 28, 4);
  }

  lemma SecondWord()
    ensures Steps(0x5C2B_2969, 32) == 0x651F_2550
  {
    FourSteps(0x5C2B_2969);
    assert Steps(0x5C2B_2969, 4) == 0xF5CD_21D2;
    FourSteps(0xF5CD_21D2);
    assert Steps(0xF5CD_21D2, 4) == 0x3432_F2D5;
    StepsCompose(0x5C2B_2969, 4, 4);
    FourSteps(0x3432_F2D5);
    assert Steps(0x3432_F2D5, 4) == 0x6828_7ED9;
    StepsCompose(0x5C2B_2969, 8, 4);
    FourSteps(0x6828_7ED9);
    assert Steps(0x6828_7ED9, 4) == 0xF68D_14A9;
    StepsCompose(0x5C2B_2969, 12, 4);
    FourSteps(0xF68D_14A9);
    assert Steps(0xF68D_14A9, 4) == 0xFF67_420E;
    StepsCompose(0x5C2B_2969, 16, 4);
    FourSteps(0xFF67_420E);
    assert Steps(0xFF67_420E, 4) == 0xAFFC_9658;
    StepsCompose(0x5C2B_2969, 20, 4);
    FourSteps(0xAFFC_9658);
    assert Steps(0xAFFC_9658, 4) == 0xE747_4A45;
    StepsCompose(0x5C2B_2969, 24, 4);
    FourSteps(0xE747_4A45);
    assert Steps(0xE747_4A45, 4) == 0x651F_2550;
    StepsCompose(0x5C2B_2969, 28, 4);
  }

  lemma LastByte()
    ensures Steps(0x651F_2569, 8) == 0x340B_C6D9
  {
    FourSteps(0x651F_2569);
    assert Steps(0x651F_2569, 4) == 0xF65E_6112;
    FourSteps(0xF65E_6112);
    assert Steps(0xF65E_6112, 4) == 0x340B_C6D9;
    StepsCompose(0x651F_2569, 4, 4);
  }
}
