// The flash image writer, bin/plp_flash_stimuli.py, for plain (unencrypted) images.
module FlashWriter {
  import opened Common
  import opened Packing
  import opened FlashFormat
  import opened FlashComps
  import Crc32

  /**
   * `offsets` and `nbBlocks` hold the attribute of that name of every boot segment, `flashAddrs`
   * that of every file.
   */
  class FlashImage {
    const bootBinary: Option<Binary>
    const compList: seq<Comp>
    const blockSize: int
    var buff: seq<byte>
    var flashOffset: int
    var fsOffset: int
    var offsets: seq<int>
    var nbBlocks: seq<int>
    var flashAddrs: seq<int>

    constructor (bootBinary: Option<Binary>, compList: seq<Comp>, hyper: bool)
      ensures this.bootBinary == bootBinary && this.compList == compList && blockSize == if hyper then 1024 else 4096
      ensures buff == [] && flashOffset == 0
    {
      this.bootBinary := bootBinary;
      this.compList := compList;
      this.blockSize := if hyper then 1024 else 4096;
      this.buff := [];
      this.flashOffset := 0;
    }

    /** The write position is the length of what was written. */
    ghost predicate InStep()
      reads this`buff, this`flashOffset
    {
      flashOffset == |buff|
    }

    /** Appends zeros; a negative number of them moves the write position back and appends nothing. */
    method Pad(padSize: int)
      modifies this`buff, this`flashOffset
      ensures buff == old(buff) + Zeros(padSize) && flashOffset == old(flashOffset) + padSize
    {
      flashOffset := flashOffset + padSize;
      var n := if padSize < 0 then 0 else padSize;
      for i := 0 to n
        invariant buff == old(buff) + Zeros(i) && flashOffset == old(flashOffset) + padSize
      {
        buff := buff + [0];
        assert Zeros(i + 1) == Zeros(i) + [0];
      }
      assert Zeros(n) == Zeros(padSize);
    }

    method AppendInt(value: int)
      modifies this`buff, this`flashOffset
      ensures buff == old(buff) + Pack32(value) && flashOffset == old(flashOffset) + 4
    {
      buff := buff + Pack32(value);
      flashOffset := flashOffset + 4;
    }

    method AppendLongInt(value: int)
      modifies this`buff, this`flashOffset
      ensures buff == old(buff) + Pack64(value) && flashOffset == old(flashOffset) + 8
    {
      buff := buff + Pack64(value);
      flashOffset := flashOffset + 8;
    }

    method AppendByte(value: byte)
      modifies this`buff, this`flashOffset
      ensures buff == old(buff) + [value] && flashOffset == old(flashOffset) + 1
    {
      buff := buff + [value];
      flashOffset := flashOffset + 1;
    }

    /**
     * Appends `data`, at an offset if one is given. The write position stays the length exactly when
     * the offset does not lie behind it.
     */
    method AppendBuffer(data: seq<byte>, padToOffset: Option<int>)
      requires InStep()
      modifies this`buff, this`flashOffset
      ensures padToOffset.None? ==> buff == old(buff) + data
      ensures padToOffset.Some? ==> buff == AppendAt(old(buff), padToOffset.value, data)
      ensures InStep() <==> (padToOffset.Some? ==> old(flashOffset) <= padToOffset.value)
    {
      if padToOffset.Some? {
        Pad(padToOffset.value - flashOffset);
      }
      buff := buff + data;
      flashOffset := flashOffset + |data|;
    }

    /** The offset of every segment and of the component table. */
    method LayOut(bin: Binary)
      requires bootBinary == Some(bin) && 0 < blockSize
      modifies this`fsOffset, this`offsets, this`nbBlocks
      ensures fsOffset == FsOffset(bin.segments, blockSize)
      ensures LaidOut(bin)
    {
      hide RoundUp;
      var n := |bin.segments|;
      offsets, nbBlocks := [], [];
      var at := RoundUp(CrcOffset(n) + 4, blockSize);
      for k := 0 to n
        invariant at == SegmentOffset(bin.segments, blockSize, k)
        invariant |offsets| == |nbBlocks| == k
        invariant forall i :: 0 <= i < k ==> offsets[i] == SegmentOffset(bin.segments, blockSize, i)
        invariant forall i :: 0 <= i < k ==> nbBlocks[i] == Blocks(|bin.segments[i].data|, blockSize)
      {
        var nb := Blocks(|bin.segments[k].data|, blockSize);
        nbBlocks := nbBlocks + [nb];
        offsets := offsets + [at];
        NextOffset(bin.segments, blockSize, k);
        at := at + nb * blockSize;
      }
      fsOffset := RoundUp(at, 8);
    }

    ghost predicate LaidOut(bin: Binary)
      requires 0 < blockSize
      reads this`offsets, this`nbBlocks
    {
      && |offsets| == |nbBlocks| == |bin.segments|
      && (forall i :: 0 <= i < |offsets| ==> offsets[i] == SegmentOffset(bin.segments, blockSize, i))
      && forall i :: 0 <= i < |nbBlocks| ==> nbBlocks[i] == Blocks(|bin.segments[i].data|, blockSize)
    }

    /** The header with its checksum. */
    method BuildHeader(bin: Binary) returns (header: seq<byte>)
      requires 0 < blockSize && LaidOut(bin) && fsOffset == FsOffset(bin.segments, blockSize) && flashOffset == 0
      ensures header == Header(bin, blockSize)
    {
      hide Pack32, SegmentOffset, Blocks, FsOffset, Checksum, PackChecksum, Crc32.Crc, Bits;
      var n := |bin.segments|;
      header := Pack32(fsOffset) + Pack32(n) + Pack32(bin.entry) + Pack32(BOOT_ADDR);
      ghost var fixed := header;
      for k := 0 to n
        invariant |fixed| == 16 && header == fixed + SegmentTable(bin.segments, blockSize, k)
      {
        header := header + Pack32(offsets[k]) + Pack32(bin.segments[k].base) + Pack32(|bin.segments[k].data|) + Pack32(nbBlocks[k]);
        assert header == fixed + (SegmentTable(bin.segments, blockSize, k) + SegmentEntry(bin.segments, blockSize, k));
      }
      header := header + Zeros(CrcOffset(n) - flashOffset - |header|);
      assert header == HeaderBody(bin, blockSize);
      var crc := Crc32.GetCrc(Bits(header));
      assert crc == Checksum(header) by {
        ChecksumIsCrc(header);
      }
      header := header + PackChecksum(crc);
    }

    /** The boot part: layout, header, segments and the padding in front of the component table. */
    method DumpFlashHeader(bin: Binary)
      requires bootBinary == Some(bin) && 0 < blockSize && buff == [] && flashOffset == 0
      modifies this`buff, this`flashOffset, this`fsOffset, this`offsets, this`nbBlocks
      ensures buff == BootPart(bootBinary, blockSize) && InStep()
    {
      hide Header, SegmentOffset, FsOffset, RoundUp;
      LayOut(bin);
      var header := BuildHeader(bin);
      AppendBuffer(header, None);
      DumpSegments(bin);
      TableBehindSegments(bin, blockSize);
      WithSegmentsLength(bin, blockSize, |bin.segments|);
      hide WithSegments;
      Pad(fsOffset - flashOffset);
      assert buff == buff + [];
    }

    method DumpSegments(bin: Binary)
      requires bootBinary == Some(bin) && 0 < blockSize && InStep() && LaidOut(bin) && buff == Header(bin, blockSize)
      modifies this`buff, this`flashOffset
      ensures buff == WithSegments(bin, blockSize, |bin.segments|) && InStep()
    {
      hide Header, SegmentOffset, AppendAt;
      for k := 0 to |bin.segments|
        invariant buff == WithSegments(bin, blockSize, k) && InStep()
      {
        WithSegmentsLength(bin, blockSize, k);
        AppendBuffer(bin.segments[k].data, Some(offsets[k]));
      }
    }

    method DumpBootBinary()
      requires 0 < blockSize && buff == [] && flashOffset == 0
      modifies this`buff, this`flashOffset, this`fsOffset, this`offsets, this`nbBlocks
      ensures buff == BootPart(bootBinary, blockSize) && InStep()
    {
      if bootBinary.Some? {
        DumpFlashHeader(bootBinary.value);
      } else {
        AppendLongInt(8);
      }
    }

    /** The size of the table, and the address of every file. */
    method PlaceComps() returns (headerSize: int)
      modifies this`flashAddrs
      ensures headerSize == HeaderSize(compList)
      ensures Placed(flashOffset + headerSize)
    {
      hide RoundUp;
      headerSize := 12;
      for k := 0 to |compList|
        invariant headerSize == EntryOffset(compList, k)
      {
        headerSize := headerSize + 12;
        headerSize := headerSize + |compList[k].name| + 1;
      }
      var base := flashOffset + headerSize;
      var flashAddr := base;
      flashAddrs := [];
      for k := 0 to |compList|
        invariant flashAddr == CompEnd(compList, base, k) && |flashAddrs| == k
        invariant forall i :: 0 <= i < k ==> flashAddrs[i] == CompAddr(compList, base, i)
      {
        flashAddrs := flashAddrs + [RoundUp(flashAddr, 4)];
        flashAddr := flashAddrs[k] + |compList[k].data|;
      }
    }

    ghost predicate Placed(base: int)
      reads this`flashAddrs
    {
      |flashAddrs| == |compList| && forall i :: 0 <= i < |flashAddrs| ==> flashAddrs[i] == CompAddr(compList, base, i)
    }

    method AppendEntry(ghost base: int, k: nat)
      requires k < |compList| && InStep() && Placed(base)
      modifies this`buff, this`flashOffset
      ensures buff == old(buff) + CompEntry(compList, base, k) && InStep()
    {
      hide CompAddr, Pack32;
      AppendInt(flashAddrs[k]);
      AppendInt(|compList[k].data|);
      AppendInt(|compList[k].name| + 1);
      AppendBuffer(compList[k].name, None);
      AppendByte(0);
    }

    /** The component table. */
    method DumpTable()
      requires InStep()
      modifies this`buff, this`flashOffset, this`flashAddrs
      ensures buff == old(buff) + CompTable(compList, old(flashOffset) + HeaderSize(compList), |compList|) && InStep()
      ensures Placed(old(flashOffset) + HeaderSize(compList))
    {
      hide CompAddr, EntryOffset, HeaderSize, Pack32, Pack64, CompEntry;
      var headerSize := PlaceComps();
      ghost var base := flashOffset + headerSize;
      AppendLongInt(headerSize);
      AppendInt(|compList|);
      for k := 0 to |compList|
        invariant buff == old(buff) + CompTable(compList, base, k) && InStep() && Placed(base)
      {
        AppendEntry(base, k);
        assert buff == old(buff) + (CompTable(compList, base, k) + CompEntry(compList, base, k));
      }
    }

    /** The component table and the files. */
    method DumpComps()
      requires InStep()
      modifies this`buff, this`flashOffset, this`flashAddrs
      ensures buff == WithComps(old(buff), compList, |compList|) && InStep()
    {
      hide CompAddr, CompTable, HeaderSize, AppendAt;
      DumpTable();
      ghost var base := old(flashOffset) + HeaderSize(compList);
      for k := 0 to |compList|
        invariant buff == WithComps(old(buff), compList, k) && InStep() && Placed(base)
      {
        WithCompsLength(old(buff), compList, k);
        AddressesIncrease(compList, base, k);
        AppendBuffer(compList[k].data, Some(flashAddrs[k]));
      }
    }

    /** The image of a new writer is the specified one. */
    method Generate()
      requires 0 < blockSize && buff == [] && flashOffset == 0
      modifies this`buff, this`flashOffset, this`fsOffset, this`offsets, this`nbBlocks, this`flashAddrs
      ensures buff == Image(bootBinary, compList, blockSize) && InStep()
      ensures Readable(bootBinary, compList, blockSize)
              ==> ReadTable(buff) == compList && (bootBinary.Some? ==> ReadBinary(buff) == bootBinary.value)
    {
      hide BootPart, WithComps, ReadTable, ReadBinary, BootFits, CompsFit, HeaderSize;
      DumpBootBinary();
      DumpComps();
      if Readable(bootBinary, compList, blockSize) {
        ImageRoundTrip(bootBinary, compList, blockSize);
      }
    }
  }

  /** Every field of the image fits its width, so that writing raises no error. */
  ghost predicate Readable(boot: Option<Binary>, comps: seq<Comp>, blockSize: int)
    requires 0 < blockSize
  {
    && (boot.Some? ==> BootFits(boot.value, blockSize))
    && CompsFit(comps, |BootPart(boot, blockSize)| + HeaderSize(comps))
  }

  lemma NextOffset(segments: seq<Segment>, blockSize: int, k: nat)
    requires 0 < blockSize && k < |segments|
    ensures SegmentOffset(segments, blockSize, k + 1)
         == SegmentOffset(segments, blockSize, k) + Blocks(|segments[k].data|, blockSize) * blockSize
  {
  }

  lemma ChecksumIsCrc(s: seq<byte>)
    ensures Checksum(s) == Crc32.Crc(Bits(s))
  {
  }

  lemma TableBehindSegments(bin: Binary, blockSize: int)
    requires 0 < blockSize
    ensures SegmentOffset(bin.segments, blockSize, |bin.segments|) <= FsOffset(bin.segments, blockSize)
  {
    RoundUpBounds(SegmentOffset(bin.segments, blockSize, |bin.segments|), 8);
    hide RoundUp, SegmentOffset;
  }
}
