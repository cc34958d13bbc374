// The flash image format that bin/plp_flash_stimuli.py writes: where everything goes, and how a
// boot loader finds it again.
module FlashFormat {
  import opened Common
  import opened Packing
  import opened Arithmetic

  const BOOT_ADDR := 0x1C00_0000

  /** A loadable segment of the boot binary. */
  datatype Segment = Segment(base: int, data: seq<byte>)

  datatype Binary = Binary(entry: int, segments: seq<Segment>)

  /** A file with its name, one byte per character. */
  datatype Comp = Comp(name: seq<byte>, data: seq<byte>)

  /** The number of blocks, rounded up, and `n` rounded up to a block. */
  function Blocks(n: int, blockSize: int): int
    requires 0 < blockSize
  {
    (n + blockSize - 1) / blockSize
  }

  function RoundUp(n: int, blockSize: int): int
    requires 0 < blockSize
  {
    Blocks(n, blockSize) * blockSize
  }

  lemma RoundUpBounds(n: int, blockSize: int)
    requires 0 < blockSize
    ensures n <= RoundUp(n, blockSize) < n + blockSize
  {
    var m := n + blockSize - 1;
    assert m == m / blockSize * blockSize + m % blockSize;
  }

  // ----- Layout

  /** Where the checksum goes: behind four words and 64 bytes for each segment. */
  function CrcOffset(n: nat): int
  {
    16 + 64 * n
  }

  /** The offset of segment `k`; of the end of the last one if `k` is their number. */
  function SegmentOffset(segments: seq<Segment>, blockSize: int, k: nat): int
    requires 0 < blockSize && k <= |segments|
  {
    if k == 0 then RoundUp(CrcOffset(|segments|) + 4, blockSize)
    else SegmentOffset(segments, blockSize, k - 1) + RoundUp(|segments[k - 1].data|, blockSize)
  }

  /** Where the component table starts. */
  function FsOffset(segments: seq<Segment>, blockSize: int): int
    requires 0 < blockSize
  {
    RoundUp(SegmentOffset(segments, blockSize, |segments|), 8)
  }

  /** Segments are laid out behind the checksum, in order, without overlap. */
  lemma {:induction false} OffsetsIncrease(segments: seq<Segment>, blockSize: int, k: nat)
    requires 0 < blockSize && k <= |segments|
    ensures CrcOffset(|segments|) + 4 <= SegmentOffset(segments, blockSize, k)
    ensures 0 < k ==> SegmentOffset(segments, blockSize, k - 1) + |segments[k - 1].data| <= SegmentOffset(segments, blockSize, k)
  {
    hide RoundUp;
    RoundUpBounds(CrcOffset(|segments|) + 4, blockSize);
    if 0 < k {
      RoundUpBounds(|segments[k - 1].data|, blockSize);
      OffsetsIncrease(segments, blockSize, k - 1);
    }
  }

  /** Segments start at whole blocks, and the table at a multiple of 8. */
  lemma {:induction false} OffsetsAreAligned(segments: seq<Segment>, blockSize: int, k: nat)
    requires 0 < blockSize && k <= |segments|
    ensures SegmentOffset(segments, blockSize, k) % blockSize == 0 && FsOffset(segments, blockSize) % 8 == 0
  {
    hide Blocks;
    if k == 0 {
      MultipleOf(0, Blocks(CrcOffset(|segments|) + 4, blockSize), blockSize);
    } else {
      OffsetsAreAligned(segments, blockSize, k - 1);
      MultipleOf(SegmentOffset(segments, blockSize, k - 1), Blocks(|segments[k - 1].data|, blockSize), blockSize);
    }
    MultipleOf(0, Blocks(SegmentOffset(segments, blockSize, |segments|), 8), 8);
  }

  /** A multiple of `b` and `q` more of them. */
  lemma MultipleOf(a: int, q: int, b: int)
    requires 0 < b && a % b == 0
    ensures (a + q * b) % b == 0
  {
    var p := a / b;
    assert a + q * b == (p + q) * b;
    NoRemainder(p + q, b);
  }

  /** The table entry of segment `k`. */
  function SegmentEntry(segments: seq<Segment>, blockSize: int, k: nat): (s: seq<byte>)
    requires 0 < blockSize && k < |segments|
    ensures |s| == 16
  {
    Pack32(SegmentOffset(segments, blockSize, k)) + Pack32(segments[k].base)
    + Pack32(|segments[k].data|) + Pack32(Blocks(|segments[k].data|, blockSize))
  }

  /** The first `k` table entries. */
  function SegmentTable(segments: seq<Segment>, blockSize: int, k: nat): (s: seq<byte>)
    requires 0 < blockSize && k <= |segments|
    ensures |s| == 16 * k
  {
    if k == 0 then [] else SegmentTable(segments, blockSize, k - 1) + SegmentEntry(segments, blockSize, k - 1)
  }

  /** The header in front of its checksum. */
  function HeaderBody(bin: Binary, blockSize: int): (s: seq<byte>)
    requires 0 < blockSize
    ensures |s| == CrcOffset(|bin.segments|)
  {
    var n := |bin.segments|;
    Pack32(FsOffset(bin.segments, blockSize)) + Pack32(n) + Pack32(bin.entry) + Pack32(BOOT_ADDR)
    + SegmentTable(bin.segments, blockSize, n) + Zeros(48 * n)
  }

  function Header(bin: Binary, blockSize: int): (s: seq<byte>)
    requires 0 < blockSize
    ensures |s| == CrcOffset(|bin.segments|) + 4
  {
    HeaderBody(bin, blockSize) + PackChecksum(Checksum(HeaderBody(bin, blockSize)))
  }

  /** `data` behind as many zeros as are needed to reach `offset`. */
  function AppendAt(buff: seq<byte>, offset: int, data: seq<byte>): seq<byte>
  {
    buff + Zeros(offset - |buff|) + data
  }

  /** The buffer after the data of the first `k` segments. */
  function WithSegments(bin: Binary, blockSize: int, k: nat): seq<byte>
    requires 0 < blockSize && k <= |bin.segments|
  {
    if k == 0 then Header(bin, blockSize)
    else AppendAt(WithSegments(bin, blockSize, k - 1), SegmentOffset(bin.segments, blockSize, k - 1), bin.segments[k - 1].data)
  }

  /** The boot part of the image. Without a boot binary it only says where the component table starts. */
  function BootPart(boot: Option<Binary>, blockSize: int): seq<byte>
    requires 0 < blockSize
  {
    match boot
    case None => Pack64(8)
    case Some(bin) => AppendAt(WithSegments(bin, blockSize, |bin.segments|), FsOffset(bin.segments, blockSize), [])
  }

  lemma {:induction false} WithSegmentsLength(bin: Binary, blockSize: int, k: nat)
    requires 0 < blockSize && k <= |bin.segments|
    ensures |WithSegments(bin, blockSize, k)| <= SegmentOffset(bin.segments, blockSize, k)
    ensures 0 < k ==> |WithSegments(bin, blockSize, k)| == SegmentOffset(bin.segments, blockSize, k - 1) + |bin.segments[k - 1].data|
  {
    hide Header, RoundUp;
    OffsetsIncrease(bin.segments, blockSize, k);
    if 0 < k {
      WithSegmentsLength(bin, blockSize, k - 1);
    }
  }

  // ----- The boot loader's view

  /** Every field fits its 32 bits; `struct.pack` raises an error otherwise. */
  ghost predicate BootFits(bin: Binary, blockSize: int)
    requires 0 < blockSize
  {
    && FsOffset(bin.segments, blockSize) < 0x1_0000_0000 && 0 <= bin.entry < 0x1_0000_0000
    && forall k :: 0 <= k < |bin.segments| ==> 0 <= bin.segments[k].base < 0x1_0000_0000
  }

  function ReadOffset(img: seq<byte>, k: nat): int
  {
    Word32(img, 16 + 16 * k)
  }

  function ReadSegment(img: seq<byte>, k: nat): Segment
  {
    Segment(Word32(img, 16 + 16 * k + 4), Slice(img, ReadOffset(img, k), ReadOffset(img, k) + Word32(img, 16 + 16 * k + 8)))
  }

  function ReadBinary(img: seq<byte>): Binary
  {
    Binary(Word32(img, 8), seq(Word32(img, 4), k requires 0 <= k => ReadSegment(img, k)))
  }

  /** The first four words and the first `k` table entries. */
  function TableStart(bin: Binary, blockSize: int, k: nat): seq<byte>
    requires 0 < blockSize && k <= |bin.segments|
  {
    Pack32(FsOffset(bin.segments, blockSize)) + Pack32(|bin.segments|) + Pack32(bin.entry) + Pack32(BOOT_ADDR)
    + SegmentTable(bin.segments, blockSize, k)
  }

  lemma {:induction false} TableStartIsPrefix(bin: Binary, blockSize: int, k: nat)
    requires 0 < blockSize && k <= |bin.segments|
    ensures TableStart(bin, blockSize, k) <= HeaderBody(bin, blockSize)
    decreases |bin.segments| - k
  {
    hide Pack32, SegmentEntry, FsOffset;
    if k < |bin.segments| {
      TableStartIsPrefix(bin, blockSize, k + 1);
      assert TableStart(bin, blockSize, k) <= TableStart(bin, blockSize, k + 1);
    }
  }

  lemma {:induction false} SegmentsArePrefix(bin: Binary, blockSize: int, k: nat)
    requires 0 < blockSize && k <= |bin.segments|
    ensures WithSegments(bin, blockSize, k) <= BootPart(Some(bin), blockSize)
    decreases |bin.segments| - k
  {
    hide Header, SegmentOffset, FsOffset;
    if k < |bin.segments| {
      SegmentsArePrefix(bin, blockSize, k + 1);
      assert WithSegments(bin, blockSize, k) <= WithSegments(bin, blockSize, k + 1);
    }
  }

  lemma HeaderIsPrefix(bin: Binary, blockSize: int)
    requires 0 < blockSize
    ensures HeaderBody(bin, blockSize) <= Header(bin, blockSize) <= BootPart(Some(bin), blockSize)
  {
    hide HeaderBody, FsOffset, PackChecksum, Checksum;
    SegmentsArePrefix(bin, blockSize, 0);
  }

  lemma {:induction false} OffsetBelowEnd(segments: seq<Segment>, blockSize: int, k: nat, m: nat)
    requires 0 < blockSize && k < m <= |segments|
    ensures SegmentOffset(segments, blockSize, k) + |segments[k].data| <= SegmentOffset(segments, blockSize, m)
    decreases m
  {
    hide RoundUp;
    OffsetsIncrease(segments, blockSize, m);
    if k < m - 1 {
      OffsetBelowEnd(segments, blockSize, k, m - 1);
    }
  }

  lemma BlocksBound(n: nat, blockSize: int)
    requires 0 < blockSize
    ensures 0 <= Blocks(n, blockSize) <= n
  {
    var m, q := n + blockSize - 1, Blocks(n, blockSize);
    assert m == q * blockSize + m % blockSize;
    assert 0 <= q by {
      QuotientNonNegative(m, blockSize);
    }
    if n < q {
      MulAtMost(n + 1, q, blockSize);
      MulAtMost(1, blockSize, n);
    }
  }

  lemma EntryFits(bin: Binary, blockSize: int, k: nat)
    requires 0 < blockSize && BootFits(bin, blockSize) && k < |bin.segments|
    ensures 0 <= SegmentOffset(bin.segments, blockSize, k) < 0x1_0000_0000
    ensures |bin.segments[k].data| < 0x1_0000_0000 && 0 <= Blocks(|bin.segments[k].data|, blockSize) < 0x1_0000_0000
    ensures |bin.segments| < 0x1_0000_0000 && 0 <= FsOffset(bin.segments, blockSize)
  {
    hide SegmentOffset, Blocks;
    var n := |bin.segments|;
    OffsetsIncrease(bin.segments, blockSize, k);
    OffsetsIncrease(bin.segments, blockSize, n);
    OffsetBelowEnd(bin.segments, blockSize, k, n);
    RoundUpBounds(SegmentOffset(bin.segments, blockSize, n), 8);
    BlocksBound(|bin.segments[k].data|, blockSize);
    hide RoundUp;
  }

  lemma FixedFieldsFit(bin: Binary, blockSize: int)
    requires 0 < blockSize && BootFits(bin, blockSize)
    ensures |bin.segments| < 0x1_0000_0000 && 0 <= FsOffset(bin.segments, blockSize)
  {
    hide SegmentOffset;
    var n := |bin.segments|;
    OffsetsIncrease(bin.segments, blockSize, n);
    RoundUpBounds(SegmentOffset(bin.segments, blockSize, n), 8);
    hide RoundUp;
  }

  /** The fixed words of the image. */
  lemma FixedWords(bin: Binary, blockSize: int, img: seq<byte>)
    requires 0 < blockSize && BootFits(bin, blockSize) && BootPart(Some(bin), blockSize) <= img
    ensures Word32(img, 0) == FsOffset(bin.segments, blockSize) && Word32(img, 4) == |bin.segments|
    ensures Word32(img, 8) == bin.entry && Word32(img, 12) == 0x1C00_0000
  {
    FixedFieldsFit(bin, blockSize);
    HeaderIsPrefix(bin, blockSize);
    TableStartIsPrefix(bin, blockSize, 0);
    hide FsOffset, Pack32, Word32, BootPart, Header, HeaderBody;
    var a, b, c, d := FsOffset(bin.segments, blockSize), |bin.segments|, bin.entry, BOOT_ADDR;
    assert [] + (Pack32(a) + Pack32(b) + Pack32(c) + Pack32(d)) == TableStart(bin, blockSize, 0);
    PackedFourIn([], a, b, c, d, img);
  }

  /** The table entry of segment `k`. */
  lemma EntryWords(bin: Binary, blockSize: int, img: seq<byte>, k: nat)
    requires 0 < blockSize && BootFits(bin, blockSize) && BootPart(Some(bin), blockSize) <= img && k < |bin.segments|
    ensures ReadOffset(img, k) == SegmentOffset(bin.segments, blockSize, k)
    ensures Word32(img, 16 + 16 * k + 4) == bin.segments[k].base && Word32(img, 16 + 16 * k + 8) == |bin.segments[k].data|
    ensures Word32(img, 16 + 16 * k + 12) == Blocks(|bin.segments[k].data|, blockSize)
  {
    EntryFits(bin, blockSize, k);
    var base := bin.segments[k].base;
    assert 0 <= base < 0x1_0000_0000;
    TableStartGrows(bin, blockSize, k);
    TableIsInImage(bin, blockSize, img, k + 1);
    hide BootFits, BootPart, SegmentOffset, Blocks, TableStart, Word32, Pack32;
    PackedFourIn(TableStart(bin, blockSize, k), SegmentOffset(bin.segments, blockSize, k), base,
                 |bin.segments[k].data|, Blocks(|bin.segments[k].data|, blockSize), img);
  }

  lemma TableIsInImage(bin: Binary, blockSize: int, img: seq<byte>, k: nat)
    requires 0 < blockSize && BootPart(Some(bin), blockSize) <= img && k <= |bin.segments|
    ensures TableStart(bin, blockSize, k) <= img
  {
    hide *;
    HeaderIsPrefix(bin, blockSize);
    TableStartIsPrefix(bin, blockSize, k);
  }

  lemma TableStartGrows(bin: Binary, blockSize: int, k: nat)
    requires 0 < blockSize && k < |bin.segments|
    ensures |TableStart(bin, blockSize, k)| == 16 + 16 * k
    ensures TableStart(bin, blockSize, k + 1) == TableStart(bin, blockSize, k)
      + (Pack32(SegmentOffset(bin.segments, blockSize, k)) + Pack32(bin.segments[k].base)
         + Pack32(|bin.segments[k].data|) + Pack32(Blocks(|bin.segments[k].data|, blockSize)))
  {
    hide Pack32, SegmentOffset, Blocks, FsOffset;
    assert SegmentTable(bin.segments, blockSize, k + 1) == SegmentTable(bin.segments, blockSize, k) + SegmentEntry(bin.segments, blockSize, k);
  }

  /** The data of segment `k` is where its table entry says. */
  lemma SegmentData(bin: Binary, blockSize: int, img: seq<byte>, k: nat)
    requires 0 < blockSize && BootPart(Some(bin), blockSize) <= img && k < |bin.segments|
    ensures var o := SegmentOffset(bin.segments, blockSize, k);
            Slice(img, o, o + |bin.segments[k].data|) == bin.segments[k].data
  {
    hide *;
    SegmentsArePrefix(bin, blockSize, k + 1);
    WithSegmentsLength(bin, blockSize, k);
    OneMoreSegment(bin, blockSize, k);
    AppendedData(WithSegments(bin, blockSize, k), SegmentOffset(bin.segments, blockSize, k), bin.segments[k].data, img);
  }

  lemma OneMoreSegment(bin: Binary, blockSize: int, k: nat)
    requires 0 < blockSize && k < |bin.segments|
    ensures WithSegments(bin, blockSize, k + 1)
         == AppendAt(WithSegments(bin, blockSize, k), SegmentOffset(bin.segments, blockSize, k), bin.segments[k].data)
  {
    hide SegmentOffset, AppendAt, Header;
  }

  /** Data appended at an offset is found there. */
  lemma AppendedData(buff: seq<byte>, offset: int, data: seq<byte>, img: seq<byte>)
    requires |buff| <= offset && AppendAt(buff, offset, data) <= img
    ensures Slice(img, offset, offset + |data|) == data
    ensures |AppendAt(buff, offset, data)| == offset + |data|
  {
    var t := AppendAt(buff, offset, data);
    assert t[offset..offset + |data|] == data;
    assert img[offset..offset + |data|] == t[offset..offset + |data|];
  }

  /** Whatever follows the boot part, the boot loader reads the boot binary back exactly. */
  lemma BootRoundTrip(bin: Binary, blockSize: int, img: seq<byte>)
    requires 0 < blockSize && BootFits(bin, blockSize) && BootPart(Some(bin), blockSize) <= img
    ensures ReadBinary(img) == bin
    ensures forall k :: 0 <= k < |bin.segments| ==> ReadOffset(img, k) == SegmentOffset(bin.segments, blockSize, k)
  {
    FixedWords(bin, blockSize, img);
    hide BootPart, SegmentOffset, BootFits, Word32, Slice;
    forall k | 0 <= k < |bin.segments|
      ensures ReadSegment(img, k) == bin.segments[k] && ReadOffset(img, k) == SegmentOffset(bin.segments, blockSize, k)
    {
      EntryWords(bin, blockSize, img, k);
      SegmentData(bin, blockSize, img, k);
    }
  }

  /** The header and its checksum together have the residue of CRC-32 as checksum. */
  lemma HeaderChecks(bin: Binary, blockSize: int, img: seq<byte>)
    requires 0 < blockSize && BootPart(Some(bin), blockSize) <= img
    ensures Checksum(Slice(img, 0, 20 + 64 * |bin.segments|)) == 0x2144_DF1C
  {
    HeaderIsPrefix(bin, blockSize);
    ChecksumResidue(HeaderBody(bin, blockSize));
    hide HeaderBody, BootPart, Checksum, PackChecksum;
    assert img[0..CrcOffset(|bin.segments|) + 4] == Header(bin, blockSize);
  }
}
