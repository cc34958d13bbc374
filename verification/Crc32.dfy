// The checksum of bin/plp_flash_stimuli.py: the reflected CRC-32 of section 8 of RFC 1952.
module Crc32 {

  const POLYNOMIAL: bv32 := 0xEDB8_8320

  // The bit operations have names so that proofs about sequences of steps need not look inside.

  function Xor(a: bv32, b: bv32): bv32 { a ^ b }

  function Half(x: bv32): bv32 { x >> 1 }

  function Double(x: bv32): bv32 { x << 1 }

  function Times4(x: bv32): bv32 { x << 2 }

  function Times256(x: bv32): bv32 { x << 8 }

  predicate Odd(x: bv32) { x & 1 == 1 }

  /** The top bit, the two top bits, the eight top bits are clear. */
  predicate TopClear(x: bv32) { x & 0x8000_0000 == 0 }

  predicate TopTwoClear(x: bv32) { x & 0xC000_0000 == 0 }

  predicate TopByteClear(x: bv32) { x & 0xFF00_0000 == 0 }

  function Masked(odd: bool): bv32
  {
    POLYNOMIAL & (if odd then 0xFFFF_FFFF else 0)
  }

  /** One turn of the inner loop of `get_crc`. */
  function BitStep(crc: bv32): bv32
  {
    Xor(Half(crc), Masked(Odd(crc)))
  }

  function Steps(x: bv32, n: nat): bv32
  {
    if n == 0 then x else BitStep(Steps(x, n - 1))
  }

  /** The register after the bytes `s`. */
  function Feed(crc: bv32, s: seq<bv8>): bv32
  {
    if s == [] then crc else Steps(Xor(Feed(crc, s[..|s| - 1]), s[|s| - 1] as bv32), 8)
  }

  function Crc(s: seq<bv8>): bv32
  {
    Xor(Feed(0xFFFF_FFFF, s), 0xFFFF_FFFF)
  }

  /** The inner loop of `get_crc`. */
  method ShiftByte(x: bv32) returns (crc: bv32)
    ensures crc == Steps(x, 8)
  {
    hide Xor, Half, Odd, Masked;
    crc := x;
    for i := 8 downto 0
      invariant crc == Steps(x, 8 - i)
    {
      var mask: bv32 := 0;
      if Odd(crc) {
        mask := 0xFFFF_FFFF;
      }
      MaskedBy(crc, mask);
      crc := Xor(Half(crc), POLYNOMIAL & mask);
    }
  }

  lemma MaskedBy(crc: bv32, mask: bv32)
    requires mask == if Odd(crc) then 0xFFFF_FFFF else 0
    ensures POLYNOMIAL & mask == Masked(Odd(crc))
  {
  }

  /** `get_crc`. */
  method GetCrc(buff: seq<bv8>) returns (r: bv32)
    ensures r == Crc(buff)
  {
    hide Steps, Xor;
    var crc: bv32 := 0xFFFF_FFFF;
    for k := 0 to |buff|
      invariant crc == Feed(0xFFFF_FFFF, buff[..k])
    {
      crc := ShiftByte(Xor(crc, buff[k] as bv32));
      assert buff[..k + 1][..k] == buff[..k];
    }
    assert buff[..|buff|] == buff;
    r := Xor(crc, 0xFFFF_FFFF);
  }

  // ----- Steps can be undone

  /** The polynomial has its top bit set, so the result tells which way a step went. */
  lemma BitStepInjective(x: bv32, y: bv32)
    requires BitStep(x) == BitStep(y)
    ensures x == y
  {
  }

  lemma {:induction false} StepsInjective(x: bv32, y: bv32, n: nat)
    requires Steps(x, n) == Steps(y, n)
    ensures x == y
  {
    hide BitStep;
    if 0 < n {
      BitStepInjective(Steps(x, n - 1), Steps(y, n - 1));
      StepsInjective(x, y, n - 1);
    }
  }

  // ----- Steps are linear in the bits they only move

  function Up(c: bv32, n: nat): bv32
    decreases n
  {
    if n == 0 then c else Up(Double(c), n - 1)
  }

  /** The top `n` bits of `c` are clear. */
  predicate Room(c: bv32, n: nat)
    decreases n
  {
    n == 0 || (TopClear(c) && Room(Double(c), n - 1))
  }

  lemma OddUnmoved(x: bv32, c: bv32)
    ensures Odd(Xor(x, Double(c))) == Odd(x)
  {
  }

  lemma HalfUnmoved(x: bv32, c: bv32)
    requires TopClear(c)
    ensures Half(Xor(x, Double(c))) == Xor(Half(x), c)
  {
  }

  lemma XorSwap(a: bv32, b: bv32, m: bv32)
    ensures Xor(Xor(a, b), m) == Xor(Xor(a, m), b)
  {
    hide Xor;
    XorAssoc(a, b, m);
    XorCommutes(b, m);
    XorAssoc(a, m, b);
  }

  lemma XorCommutes(a: bv32, b: bv32)
    ensures Xor(a, b) == Xor(b, a)
  {
  }

  lemma BitStepXor(x: bv32, c: bv32)
    requires TopClear(c)
    ensures BitStep(Xor(x, Double(c))) == Xor(BitStep(x), c)
  {
    hide Xor, Half, Double, Odd, Masked, TopClear;
    OddUnmoved(x, c);
    HalfUnmoved(x, c);
    XorSwap(Half(x), c, Masked(Odd(x)));
  }

  /** Bits that `n` steps only move may be added before or after them. */
  lemma {:induction false} StepsXor(x: bv32, c: bv32, n: nat)
    requires Room(c, n)
    ensures Steps(Xor(x, Up(c, n)), n) == Xor(Steps(x, n), c)
    decreases n
  {
    hide BitStep, Xor, Double, TopClear;
    if 0 < n {
      StepsXor(x, Double(c), n - 1);
      BitStepXor(Steps(x, n - 1), c);
    }
  }

  lemma {:induction false} StepsCompose(x: bv32, m: nat, n: nat)
    ensures Steps(Steps(x, m), n) == Steps(x, m + n)
    decreases n
  {
    hide BitStep;
    if 0 < n {
      StepsCompose(x, m, n - 1);
    }
  }

  lemma {:induction false} UpShift(c: bv32, n: nat, m: nat)
    ensures Up(Up(c, n), m) == Up(c, n + m)
    ensures Room(c, n + m) <==> Room(c, n) && Room(Up(c, n), m)
    decreases n
  {
    hide Double, TopClear;
    if 0 < n {
      UpShift(Double(c), n - 1, m);
    }
  }

  lemma FourDoublings(c: bv32)
    ensures Double(Double(c)) == Times4(c)
    ensures TopTwoClear(c) ==> TopClear(c) && TopClear(Double(c))
  {
  }

  lemma UpTwo(c: bv32)
    ensures Up(c, 2) == Times4(c)
    ensures TopTwoClear(c) ==> Room(c, 2)
  {
    hide Double, Times4, TopClear, TopTwoClear;
    FourDoublings(c);
    assert Up(c, 2) == Up(Double(c), 1) == Up(Double(Double(c)), 0);
    assert Room(Double(c), 1) <==> TopClear(Double(c)) && Room(Double(Double(c)), 0);
  }

  lemma ByteShifts(c: bv32)
    ensures Times4(Times4(Times4(Times4(c)))) == Times256(c)
    ensures TopByteClear(c) ==>
      TopTwoClear(c) && TopTwoClear(Times4(c)) && TopTwoClear(Times4(Times4(c))) && TopTwoClear(Times4(Times4(Times4(c))))
  {
  }

  /** Up by a byte is a shift by eight bits. */
  lemma UpByte(c: bv32)
    ensures Up(c, 8) == Times256(c)
    ensures TopByteClear(c) ==> Room(c, 8)
  {
    hide *;
    var d := Times4(c);
    var e := Times4(d);
    var f := Times4(e);
    UpTwo(c);
    UpTwo(d);
    UpTwo(e);
    UpTwo(f);
    UpShift(c, 2, 6);
    UpShift(d, 2, 4);
    UpShift(e, 2, 2);
    ByteShifts(c);
  }

  // ----- Four bytes at a time

  lemma {:induction false} FeedConcat(crc: bv32, s: seq<bv8>, t: seq<bv8>)
    ensures Feed(crc, s + t) == Feed(Feed(crc, s), t)
    decreases |t|
  {
    hide Steps, Xor;
    if t == [] {
      assert s + t == s;
    } else {
      FeedConcat(crc, s, t[..|t| - 1]);
      assert (s + t)[..|s + t| - 1] == s + t[..|t| - 1];
    }
  }

  /** Four bytes as one word, the first byte lowest. */
  function Word(b0: bv8, b1: bv8, b2: bv8, b3: bv8): bv32
  {
    Xor(b0 as bv32, Times256(Tail3(b1, b2, b3)))
  }

  function Tail3(b1: bv8, b2: bv8, b3: bv8): bv32
  {
    Xor(b1 as bv32, Times256(Tail2(b2, b3)))
  }

  function Tail2(b2: bv8, b3: bv8): bv32
  {
    Xor(b2 as bv32, Times256(b3 as bv32))
  }

  lemma TailsFit(b1: bv8, b2: bv8, b3: bv8)
    ensures TopByteClear(b3 as bv32) && TopByteClear(Tail2(b2, b3)) && TopByteClear(Tail3(b1, b2, b3))
  {
  }

  lemma XorAssoc(a: bv32, b: bv32, c: bv32)
    ensures Xor(a, Xor(b, c)) == Xor(Xor(a, b), c)
  {
  }

  /** The low byte of a word takes part in eight steps, the rest only moves down by a byte. */
  lemma LowByteFirst(r: bv32, b: bv32, rest: bv32)
    requires TopByteClear(rest)
    ensures Steps(Xor(r, Xor(b, Times256(rest))), 8) == Xor(Steps(Xor(r, b), 8), rest)
  {
    UpByte(rest);
    StepsXor(Xor(r, b), rest, 8);
    XorAssoc(r, b, Times256(rest));
    hide *;
  }

  /** Eight steps for each byte of a word, lowest byte first. */
  function Bytewise(r: bv32, b0: bv8, b1: bv8, b2: bv8, b3: bv8): bv32
  {
    var r1 := Steps(Xor(r, b0 as bv32), 8);
    var r2 := Steps(Xor(r1, b1 as bv32), 8);
    var r3 := Steps(Xor(r2, b2 as bv32), 8);
    Steps(Xor(r3, b3 as bv32), 8)
  }

  lemma FeedBytewise(r: bv32, b0: bv8, b1: bv8, b2: bv8, b3: bv8)
    ensures Feed(r, [b0, b1, b2, b3]) == Bytewise(r, b0, b1, b2, b3)
  {
    FeedOneMore(r, [], b0);
    FeedOneMore(r, [b0], b1);
    FeedOneMore(r, [b0, b1], b2);
    FeedOneMore(r, [b0, b1, b2], b3);
    assert [b0] + [b1] == [b0, b1] && [b0, b1] + [b2] == [b0, b1, b2] && [b0, b1, b2] + [b3] == [b0, b1, b2, b3];
    hide Feed, Steps, Xor;
  }

  lemma WordBytewise(r: bv32, b0: bv8, b1: bv8, b2: bv8, b3: bv8)
    ensures Steps(Xor(r, Word(b0, b1, b2, b3)), 32) == Bytewise(r, b0, b1, b2, b3)
  {
    hide Steps, Xor, Times256, TopByteClear;
    TailsFit(b1, b2, b3);
    var r1 := Steps(Xor(r, b0 as bv32), 8);
    var r2 := Steps(Xor(r1, b1 as bv32), 8);
    LowByteFirst(r, b0 as bv32, Tail3(b1, b2, b3));
    LowByteFirst(r1, b1 as bv32, Tail2(b2, b3));
    LowByteFirst(r2, b2 as bv32, b3 as bv32);
    var x := Xor(r, Word(b0, b1, b2, b3));
    StepsCompose(x, 8, 8);
    StepsCompose(x, 16, 8);
    StepsCompose(x, 24, 8);
  }

  /** Feeding four bytes is feeding their word and 32 steps. */
  lemma FeedFour(r: bv32, b0: bv8, b1: bv8, b2: bv8, b3: bv8)
    ensures Feed(r, [b0, b1, b2, b3]) == Steps(Xor(r, Word(b0, b1, b2, b3)), 32)
  {
    FeedBytewise(r, b0, b1, b2, b3);
    WordBytewise(r, b0, b1, b2, b3);
    hide *;
  }

  lemma FeedOneMore(r: bv32, s: seq<bv8>, b: bv8)
    ensures Feed(r, s + [b]) == Steps(Xor(Feed(r, s), b as bv32), 8)
    ensures Feed(r, []) == r
    ensures s == [] ==> s + [b] == [b]
  {
    hide Steps, Xor;
    assert (s + [b])[..|s|] == s;
  }

  // ----- The residue

  /** `struct.pack("I", crc)`. */
  function Le32(x: bv32): (s: seq<bv8>)
    ensures |s| == 4
  {
    [(x & 0xFF) as bv8, ((x >> 8) & 0xFF) as bv8, ((x >> 16) & 0xFF) as bv8, ((x >> 24) & 0xFF) as bv8]
  }

  lemma WordOfLe32(x: bv32)
    ensures Word(Le32(x)[0], Le32(x)[1], Le32(x)[2], Le32(x)[3]) == x
  {
  }

  lemma XorCancels(a: bv32, b: bv32)
    ensures Xor(a, Xor(a, b)) == b
  {
  }

  lemma StepsOfOnes()
    ensures Steps(0xFFFF_FFFF, 32) == 0xDEBB_20E3
  {
    FourSteps(0xFFFF_FFFF);
    assert Steps(0xFFFF_FFFF, 4) == 0xB242_0DE3;
    FourSteps(0xB242_0DE3);
    assert Steps(0xB242_0DE3, 4) == 0x2DFD_1072;
    StepsCompose(0xFFFF_FFFF, 4, 4);
    FourSteps(0x2DFD_1072);
    assert Steps(0x2DFD_1072, 4) == 0x39B1_F1CF;
    StepsCompose(0xFFFF_FFFF, 8, 4);
    FourSteps(0x39B1_F1CF);
    assert Steps(0x39B1_F1CF, 4) == 0xBE26_ED00;
    StepsCompose(0xFFFF_FFFF, 12, 4);
    FourSteps(0xBE26_ED00);
    assert Steps(0xBE26_ED00, 4) == 0x0BE2_6ED0;
    StepsCompose(0xFFFF_FFFF, 16, 4);
    FourSteps(0x0BE2_6ED0);
    assert Steps(0x0BE2_6ED0, 4) == 0x00BE_26ED;
    StepsCompose(0xFFFF_FFFF, 20, 4);
    FourSteps(0x00BE_26ED);
    assert Steps(0x00BE_26ED, 4) == 0x86D8_30BA;
    StepsCompose(0xFFFF_FFFF, 24, 4);
    FourSteps(0x86D8_30BA);
    assert Steps(0x86D8_30BA, 4) == 0xDEBB_20E3;
    StepsCompose(0xFFFF_FFFF, 28, 4);
  }

  lemma FourSteps(x: bv32)
    ensures Steps(x, 4) == BitStep(BitStep(BitStep(BitStep(x))))
  {
    hide BitStep;
    assert Steps(x, 2) == BitStep(Steps(x, 1)) == BitStep(BitStep(Steps(x, 0)));
    assert Steps(x, 4) == BitStep(Steps(x, 3)) == BitStep(BitStep(Steps(x, 2)));
  }

  /** A message followed by its own checksum has the same checksum, whatever the message. */
  lemma Residue(m: seq<bv8>)
    ensures Crc(m + Le32(Crc(m))) == 0x2144_DF1C
  {
    var r, c := Feed(0xFFFF_FFFF, m), Crc(m);
    FeedConcat(0xFFFF_FFFF, m, Le32(c));
    assert Le32(c) == [Le32(c)[0], Le32(c)[1], Le32(c)[2], Le32(c)[3]];
    FeedFour(r, Le32(c)[0], Le32(c)[1], Le32(c)[2], Le32(c)[3]);
    WordOfLe32(c);
    XorCancels(r, 0xFFFF_FFFF);
    StepsOfOnes();
  }

  // ----- Error bursts

  lemma XorInjective(r: bv32, x: bv32, y: bv32)
    requires Xor(r, x) == Xor(r, y) || Xor(x, r) == Xor(y, r)
    ensures x == y
  {
  }

  /** Different registers stay different, whatever is fed. */
  lemma {:induction false} FeedInjective(x: bv32, y: bv32, s: seq<bv8>)
    requires Feed(x, s) == Feed(y, s)
    ensures x == y
    decreases |s|
  {
    hide Steps, Xor;
    if s != [] {
      var init, b := s[..|s| - 1], s[|s| - 1] as bv32;
      StepsInjective(Xor(Feed(x, init), b), Xor(Feed(y, init), b), 8);
      XorInjective(b, Feed(x, init), Feed(y, init));
      FeedInjective(x, y, init);
    }
  }

  lemma WordInjective(a0: bv8, a1: bv8, a2: bv8, a3: bv8, b0: bv8, b1: bv8, b2: bv8, b3: bv8)
    requires Word(a0, a1, a2, a3) == Word(b0, b1, b2, b3)
    ensures a0 == b0 && a1 == b1 && a2 == b2 && a3 == b3
  {
  }

  lemma StepsOfWordsInjective(r: bv32, x: bv32, y: bv32)
    requires Steps(Xor(r, x), 32) == Steps(Xor(r, y), 32)
    ensures x == y
  {
    StepsInjective(Xor(r, x), Xor(r, y), 32);
    XorInjective(r, x, y);
    hide *;
  }

  lemma FourBytesInjective(r: bv32, u: seq<bv8>, v: seq<bv8>)
    requires |u| == |v| == 4 && Feed(r, u) == Feed(r, v)
    ensures u == v
  {
    hide *;
    assert u == [u[0], u[1], u[2], u[3]];
    assert v == [v[0], v[1], v[2], v[3]];
    FeedFour(r, u[0], u[1], u[2], u[3]);
    FeedFour(r, v[0], v[1], v[2], v[3]);
    StepsOfWordsInjective(r, Word(u[0], u[1], u[2], u[3]), Word(v[0], v[1], v[2], v[3]));
    WordInjective(u[0], u[1], u[2], u[3], v[0], v[1], v[2], v[3]);
  }

  lemma {:induction false} FewBytesInjective(r: bv32, u: seq<bv8>, v: seq<bv8>)
    requires |u| == |v| <= 4 && Feed(r, u) == Feed(r, v)
    ensures u == v
    decreases 4 - |u|
  {
    hide Feed, Steps;
    if |u| == 4 {
      FourBytesInjective(r, u, v);
    } else {
      FeedConcat(r, u, [0]);
      FeedConcat(r, v, [0]);
      FewBytesInjective(r, u + [0], v + [0]);
      assert u == (u + [0])[..|u|] && v == (v + [0])[..|v|];
    }
  }

  /**
   * Two messages of the same length that differ only within four consecutive bytes never share
   * a checksum; in particular not if they differ in a single byte.
   */
  lemma BurstsAreDetected(pre: seq<bv8>, u: seq<bv8>, v: seq<bv8>, post: seq<bv8>)
    requires |u| == |v| <= 4 && Crc(pre + u + post) == Crc(pre + v + post)
    ensures u == v
  {
    hide Feed, Xor;
    var r := Feed(0xFFFF_FFFF, pre);
    FeedConcat(0xFFFF_FFFF, pre, u);
    FeedConcat(0xFFFF_FFFF, pre, v);
    FeedConcat(0xFFFF_FFFF, pre + u, post);
    FeedConcat(0xFFFF_FFFF, pre + v, post);
    XorInjective(0xFFFF_FFFF, Feed(0xFFFF_FFFF, pre + u + post), Feed(0xFFFF_FFFF, pre + v + post));
    FeedInjective(Feed(r, u), Feed(r, v), post);
    FewBytesInjective(r, u, v);
  }
}
