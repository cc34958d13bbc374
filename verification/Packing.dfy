// Little-endian integers in a byte sequence, as struct.pack("I", v) and struct.pack("Q", v) write them.
module Packing {
  import opened Common
  import Crc32

  function Pack32(v: int): (s: seq<byte>)
    ensures |s| == 4
  {
    [v % 256, v / 0x100 % 256, v / 0x1_0000 % 256, v / 0x100_0000 % 256]
  }

  function Pack64(v: int): (s: seq<byte>)
    ensures |s| == 8
  {
    Pack32(v % 0x1_0000_0000) + Pack32(v / 0x1_0000_0000)
  }

  function Zeros(n: int): (s: seq<byte>)
    ensures |s| == (if n < 0 then 0 else n) && forall i :: 0 <= i < |s| ==> s[i] == 0
  {
    seq(if n < 0 then 0 else n, _ => 0)
  }

  /** The 32-bit word at `o`; what lies outside counts as 0. */
  function Word32(s: seq<byte>, o: int): nat
  {
    if 0 <= o && o + 4 <= |s|
    then s[o] as int + s[o + 1] as int * 0x100 + s[o + 2] as int * 0x1_0000 + s[o + 3] as int * 0x100_0000
    else 0
  }

  function Slice(s: seq<byte>, lo: int, hi: int): seq<byte>
  {
    if 0 <= lo <= hi <= |s| then s[lo..hi] else []
  }

  lemma FourBytes(v: int)
    requires 0 <= v < 0x1_0000_0000
    ensures v % 256 + v / 0x100 % 256 * 0x100 + v / 0x1_0000 % 256 * 0x1_0000 + v / 0x100_0000 % 256 * 0x100_0000 == v
  {
    assert v / 0x100 / 256 == v / 0x1_0000 && v / 0x1_0000 / 256 == v / 0x100_0000;
  }

  /** The lowest byte comes first. */
  lemma LittleEndian(v: int)
    requires 0 <= v < 0x1_0000_0000
    ensures var s := Pack32(v);
            v == s[0] as int + 0x100 * s[1] as int + 0x1_0000 * s[2] as int + 0x100_0000 * s[3] as int
  {
    FourBytes(v);
  }

  /** And so does the lower word. */
  lemma LowWordFirst(v: int)
    requires 0 <= v < 0x1_0000_0000_0000_0000
    ensures var s := Pack64(v);
            v == s[0] as int + 0x100 * s[1] as int + 0x1_0000 * s[2] as int + 0x100_0000 * s[3] as int
                 + 0x1_0000_0000 * (s[4] as int + 0x100 * s[5] as int + 0x1_0000 * s[6] as int + 0x100_0000 * s[7] as int)
  {
    hide Pack32;
    LittleEndian(v % 0x1_0000_0000);
    LittleEndian(v / 0x1_0000_0000);
  }

  /** A packed value reads back. */
  lemma PackedWord(pre: seq<byte>, v: int, post: seq<byte>)
    requires 0 <= v < 0x1_0000_0000
    ensures Word32(pre + Pack32(v) + post, |pre|) == v
  {
    FourBytes(v);
    var s := pre + Pack32(v) + post;
    assert s[|pre|..|pre| + 4] == Pack32(v);
    assert forall i :: 0 <= i < 4 ==> s[|pre| + i] == Pack32(v)[i];
  }

  /** Four packed values behind `pre` read back. */
  lemma PackedFour(pre: seq<byte>, a: int, b: int, c: int, d: int)
    requires 0 <= a < 0x1_0000_0000 && 0 <= b < 0x1_0000_0000 && 0 <= c < 0x1_0000_0000 && 0 <= d < 0x1_0000_0000
    ensures var s := pre + (Pack32(a) + Pack32(b) + Pack32(c) + Pack32(d));
            && Word32(s, |pre|) == a && Word32(s, |pre| + 4) == b && Word32(s, |pre| + 8) == c && Word32(s, |pre| + 12) == d
  {
    PackedWord(pre, a, Pack32(b) + Pack32(c) + Pack32(d));
    PackedWord(pre + Pack32(a), b, Pack32(c) + Pack32(d));
    PackedWord(pre + Pack32(a) + Pack32(b), c, Pack32(d));
    PackedWord(pre + Pack32(a) + Pack32(b) + Pack32(c), d, []);
    hide Word32, Pack32;
    var s := pre + (Pack32(a) + Pack32(b) + Pack32(c) + Pack32(d));
    assert s == pre + Pack32(a) + (Pack32(b) + Pack32(c) + Pack32(d));
    assert s == pre + Pack32(a) + Pack32(b) + (Pack32(c) + Pack32(d));
    assert s == pre + Pack32(a) + Pack32(b) + Pack32(c) + Pack32(d);
    assert s == pre + Pack32(a) + Pack32(b) + Pack32(c) + Pack32(d) + [];
  }

  /** What is read in front of what is appended later does not change. */
  lemma ReadPrefix(s: seq<byte>, t: seq<byte>, o: int)
    requires s <= t && 0 <= o && o + 4 <= |s|
    ensures Word32(t, o) == Word32(s, o)
  {
  }

  /** Four packed values in a longer sequence read back. */
  lemma PackedFourIn(pre: seq<byte>, a: int, b: int, c: int, d: int, img: seq<byte>)
    requires 0 <= a < 0x1_0000_0000 && 0 <= b < 0x1_0000_0000 && 0 <= c < 0x1_0000_0000 && 0 <= d < 0x1_0000_0000
    requires pre + (Pack32(a) + Pack32(b) + Pack32(c) + Pack32(d)) <= img
    ensures Word32(img, |pre|) == a && Word32(img, |pre| + 4) == b && Word32(img, |pre| + 8) == c && Word32(img, |pre| + 12) == d
  {
    PackedFour(pre, a, b, c, d);
    var s := pre + (Pack32(a) + Pack32(b) + Pack32(c) + Pack32(d));
    hide Pack32, Word32;
    ReadPrefix(s, img, |pre|);
    ReadPrefix(s, img, |pre| + 4);
    ReadPrefix(s, img, |pre| + 8);
    ReadPrefix(s, img, |pre| + 12);
  }

  // ----- Checksums of bytes

  function Bits(s: seq<byte>): (r: seq<bv8>)
    ensures |r| == |s|
  {
    seq(|s|, i requires 0 <= i < |s| => s[i] as bv8)
  }

  /** The checksum of a byte sequence. */
  function Checksum(s: seq<byte>): bv32
  {
    Crc32.Crc(Bits(s))
  }

  function ByteOf(x: bv8): byte
  {
    x as int
  }

  /** The four bytes of a checksum, lowest first. */
  function PackChecksum(c: bv32): (s: seq<byte>)
    ensures |s| == 4
  {
    [ByteOf(Crc32.Le32(c)[0]), ByteOf(Crc32.Le32(c)[1]), ByteOf(Crc32.Le32(c)[2]), ByteOf(Crc32.Le32(c)[3])]
  }

  lemma BitsOfByte(x: bv8)
    ensures ByteOf(x) as bv8 == x
  {
  }

  lemma BitsOfChecksum(c: bv32)
    ensures Bits(PackChecksum(c)) == Crc32.Le32(c)
  {
    var t := Crc32.Le32(c);
    hide Crc32.Le32;
    BitsOfByte(t[0]);
    BitsOfByte(t[1]);
    BitsOfByte(t[2]);
    BitsOfByte(t[3]);
    hide ByteOf;
    assert PackChecksum(c) == [ByteOf(t[0]), ByteOf(t[1]), ByteOf(t[2]), ByteOf(t[3])];
    assert t == [t[0], t[1], t[2], t[3]];
  }

  lemma BitsConcat(s: seq<byte>, t: seq<byte>)
    ensures Bits(s + t) == Bits(s) + Bits(t)
  {
  }

  /** A byte sequence followed by its checksum has the residue of CRC-32 as its checksum. */
  lemma ChecksumResidue(s: seq<byte>)
    ensures Checksum(s + PackChecksum(Checksum(s))) == 0x2144_DF1C
  {
    hide Bits, Crc32.Crc, Crc32.Le32, PackChecksum;
    BitsOfChecksum(Checksum(s));
    BitsConcat(s, PackChecksum(Checksum(s)));
    Crc32.Residue(Bits(s));
  }
}
