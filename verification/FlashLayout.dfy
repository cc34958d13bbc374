// Where everything lies in an image, in numbers, and what lies between.
module FlashLayout {
  import opened Common
  import opened Packing
  import opened FlashFormat
  import opened FlashComps

  /** Where what is in front of segment `k` ends: the header of 20 bytes and 64 for each segment, or the segment before. */
  function FrontEnd(segments: seq<Segment>, blockSize: int, k: nat): int
    requires 0 < blockSize && k <= |segments|
  {
    if k == 0 then 20 + 64 * |segments| else SegmentOffset(segments, blockSize, k - 1) + |segments[k - 1].data|
  }

  /** Every segment starts less than a block behind what is in front of it; so does the end, and the table within 8 more. */
  lemma OffsetsAreTight(segments: seq<Segment>, blockSize: int, k: nat)
    requires 0 < blockSize && k <= |segments|
    ensures if k == 0 then 20 + 64 * |segments| <= SegmentOffset(segments, blockSize, 0) < 20 + 64 * |segments| + blockSize
            else SegmentOffset(segments, blockSize, k - 1) + |segments[k - 1].data| <= SegmentOffset(segments, blockSize, k)
                 < SegmentOffset(segments, blockSize, k - 1) + |segments[k - 1].data| + blockSize
    ensures SegmentOffset(segments, blockSize, |segments|) <= FsOffset(segments, blockSize)
          < SegmentOffset(segments, blockSize, |segments|) + 8
  {
    hide RoundUp;
    RoundUpBounds(SegmentOffset(segments, blockSize, |segments|), 8);
    if k == 0 {
      RoundUpBounds(CrcOffset(|segments|) + 4, blockSize);
    } else {
      RoundUpBounds(|segments[k - 1].data|, blockSize);
    }
  }

  /** The number of blocks that a table entry states is the least that holds the data. */
  lemma BlocksHold(n: nat, blockSize: int)
    requires 0 < blockSize
    ensures n <= Blocks(n, blockSize) * blockSize < n + blockSize
  {
    RoundUpBounds(n, blockSize);
  }

  /** Zeros fill the room in front of appended data. */
  lemma AppendedGap(buff: seq<byte>, offset: int, data: seq<byte>, img: seq<byte>, o: int)
    requires |buff| <= o < offset && AppendAt(buff, offset, data) <= img
    ensures o < |img| && img[o] == 0
  {
    var z := Zeros(offset - |buff|);
    assert AppendAt(buff, offset, data)[o] == z[o - |buff|];
  }

  lemma FrontLength(bin: Binary, blockSize: int, k: nat)
    requires 0 < blockSize && k <= |bin.segments|
    ensures |WithSegments(bin, blockSize, k)| == FrontEnd(bin.segments, blockSize, k)
  {
    WithSegmentsLength(bin, blockSize, k);
    hide SegmentOffset, HeaderBody;
  }

  /** The bytes between segments, and in front of the first one and of the table, are zero. */
  lemma GapsAreZero(bin: Binary, blockSize: int, img: seq<byte>, k: nat, o: int)
    requires 0 < blockSize && BootPart(Some(bin), blockSize) <= img && k <= |bin.segments|
    requires FrontEnd(bin.segments, blockSize, k) <= o
           < if k < |bin.segments| then SegmentOffset(bin.segments, blockSize, k) else FsOffset(bin.segments, blockSize)
    ensures 0 <= o < |img| && img[o] == 0
  {
    hide AppendAt, SegmentOffset, FsOffset, FrontEnd, Header;
    FrontLength(bin, blockSize, k);
    var front := WithSegments(bin, blockSize, k);
    if k < |bin.segments| {
      SegmentsArePrefix(bin, blockSize, k + 1);
      OneMoreSegment(bin, blockSize, k);
      AppendedGap(front, SegmentOffset(bin.segments, blockSize, k), bin.segments[k].data, img, o);
    } else {
      AppendedGap(front, FsOffset(bin.segments, blockSize), [], img, o);
    }
  }

  /** The header is filled with zeros between its table and its checksum. */
  lemma HeaderFillIsZero(bin: Binary, blockSize: int, img: seq<byte>, o: int)
    requires 0 < blockSize && BootPart(Some(bin), blockSize) <= img
    requires 16 + 16 * |bin.segments| <= o < 16 + 64 * |bin.segments|
    ensures o < |img| && img[o] == 0
  {
    HeaderIsPrefix(bin, blockSize);
    hide BootPart, Header, FsOffset, Pack32, SegmentTable;
    var body, z := HeaderBody(bin, blockSize), Zeros(48 * |bin.segments|);
    assert body[o] == z[o - 16 - 16 * |bin.segments|];
  }

  /** The bytes between the table and the files, and between files, are zero. */
  lemma FileGapsAreZero(start: seq<byte>, comps: seq<Comp>, img: seq<byte>, k: nat, o: int)
    requires k < |comps| && img == WithComps(start, comps, |comps|)
    requires var base := |start| + HeaderSize(comps);
             (if k == 0 then base else CompAddr(comps, base, k - 1) + |comps[k - 1].data|) <= o < CompAddr(comps, base, k)
    ensures 0 <= o < |img| && img[o] == 0
  {
    hide AppendAt, CompAddr, HeaderSize, WithComps;
    var base := |start| + HeaderSize(comps);
    WithCompsLength(start, comps, k);
    AddressesIncrease(comps, base, k);
    CompsPrefix(start, comps, k + 1);
    WithOneMore(start, comps, k);
    assert CompEnd(comps, base, k) == if k == 0 then base else CompAddr(comps, base, k - 1) + |comps[k - 1].data|;
    AppendedGap(WithComps(start, comps, k), CompAddr(comps, base, k), comps[k].data, img, o);
  }

  /** The table begins with its size, in two words, and the number of files. */
  lemma TableHead(start: seq<byte>, comps: seq<Comp>, img: seq<byte>)
    requires CompsFit(comps, |start| + HeaderSize(comps)) && img == WithComps(start, comps, |comps|)
    ensures Word32(img, |start|) + 0x1_0000_0000 * Word32(img, |start| + 4) == HeaderSize(comps)
    ensures Word32(img, |start| + 8) == |comps|
  {
    hide *;
    CountFits(comps, |start| + HeaderSize(comps));
    TableSizeWords(start, comps, img);
    TableWords(start, comps, img);
  }

  /** The entry of file `k`: its address, its size, the length of its name with the zero, and the name. */
  lemma CompWords(start: seq<byte>, comps: seq<Comp>, img: seq<byte>, k: nat)
    requires k < |comps| && CompsFit(comps, |start| + HeaderSize(comps)) && img == WithComps(start, comps, |comps|)
    ensures var o := |start| + EntryOffset(comps, k);
            && Word32(img, o) == CompAddr(comps, |start| + HeaderSize(comps), k) && Word32(img, o + 4) == |comps[k].data|
            && Word32(img, o + 8) == |comps[k].name| + 1 && Slice(img, o + 12, o + 12 + |comps[k].name|) == comps[k].name
  {
    hide *;
    var base := |start| + HeaderSize(comps);
    CompFits(comps, base, k);
    EntryIsThere(start, comps, img, k);
    EntryReads(start + CompTable(comps, base, k), CompAddr(comps, base, k), |comps[k].data|, comps[k].name, img);
  }

  /** Every name is followed by a zero, and the next entry. */
  lemma NamesEndWithZero(start: seq<byte>, comps: seq<Comp>, img: seq<byte>, k: nat)
    requires k < |comps| && img == WithComps(start, comps, |comps|)
    ensures var o := |start| + EntryOffset(comps, k) + 12 + |comps[k].name|;
            o < |img| && img[o] == 0 && |start| + EntryOffset(comps, k + 1) == o + 1
  {
    hide CompAddr, Pack32, WithComps, HeaderSize, CompTable;
    EntryIsThere(start, comps, img, k);
    var base := |start| + HeaderSize(comps);
    var pre := start + CompTable(comps, base, k);
    var words := Pack32(CompAddr(comps, base, k)) + Pack32(|comps[k].data|) + Pack32(|comps[k].name| + 1);
    var entry := words + comps[k].name + [0];
    assert entry[|entry| - 1] == 0 && |entry| == 13 + |comps[k].name|;
    assert (pre + entry)[|pre| + |entry| - 1] == entry[|entry| - 1];
  }

  /** The size that the table states is where the files may begin: 12 bytes, and 13 and the name for each file. */
  lemma TableSizeIs(comps: seq<Comp>, base: int)
    ensures |CompTable(comps, base, |comps|)| == HeaderSize(comps)
    ensures HeaderSize(comps) == 12 + 13 * |comps| + NameBytes(comps)
  {
    hide CompTable;
    OffsetIs(comps, |comps|);
    assert comps[..|comps|] == comps;
  }

  function NameBytes(comps: seq<Comp>): nat
  {
    if comps == [] then 0 else NameBytes(comps[..|comps| - 1]) + |comps[|comps| - 1].name|
  }

  lemma {:induction false} OffsetIs(comps: seq<Comp>, k: nat)
    requires k <= |comps|
    ensures EntryOffset(comps, k) == 12 + 13 * k + NameBytes(comps[..k])
  {
    if 0 < k {
      OffsetIs(comps, k - 1);
      assert comps[..k][..k - 1] == comps[..k - 1];
    }
  }
}
