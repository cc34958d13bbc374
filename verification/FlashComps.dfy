// The file table behind the boot part of a flash image and the files it points to.
module FlashComps {
  import opened Common
  import opened Packing
  import opened FlashFormat

  // ----- Layout

  /** The offset of entry `k` in the table; the size of the table if `k` is the number of files. */
  function EntryOffset(comps: seq<Comp>, k: nat): (o: int)
    requires k <= |comps|
    ensures 12 <= o
  {
    if k == 0 then 12 else EntryOffset(comps, k - 1) + 12 + |comps[k - 1].name| + 1
  }

  function HeaderSize(comps: seq<Comp>): (n: int)
    ensures 12 <= n
  {
    EntryOffset(comps, |comps|)
  }

  /** The address of file `k` when the table ends at `base`. */
  function CompAddr(comps: seq<Comp>, base: int, k: nat): int
    requires k < |comps|
    decreases k, 1
  {
    RoundUp(CompEnd(comps, base, k), 4)
  }

  /** Where the table and the first `k` files end. */
  function CompEnd(comps: seq<Comp>, base: int, k: nat): int
    requires k <= |comps|
    decreases k, 0
  {
    if k == 0 then base else CompAddr(comps, base, k - 1) + |comps[k - 1].data|
  }

  /** Files lie behind the table, aligned, in order, without overlap and with gaps below 4 bytes. */
  lemma {:induction false} AddressesIncrease(comps: seq<Comp>, base: int, k: nat)
    requires k < |comps|
    ensures base <= CompEnd(comps, base, k) <= CompAddr(comps, base, k) < CompEnd(comps, base, k) + 4
    ensures CompAddr(comps, base, k) % 4 == 0
    decreases k
  {
    if 0 < k {
      AddressesIncrease(comps, base, k - 1);
    }
    RoundUpBounds(CompEnd(comps, base, k), 4);
  }

  /** No two files overlap. */
  lemma {:induction false} FilesApart(comps: seq<Comp>, base: int, j: nat, k: nat)
    requires j < k < |comps|
    ensures CompAddr(comps, base, j) + |comps[j].data| <= CompAddr(comps, base, k)
  {
    hide RoundUp;
    AddressesIncrease(comps, base, k);
    if j < k - 1 {
      FilesApart(comps, base, j, k - 1);
      AddressesIncrease(comps, base, k - 1);
    }
  }

  /** The table entry of file `k`. */
  function CompEntry(comps: seq<Comp>, base: int, k: nat): (s: seq<byte>)
    requires k < |comps|
    ensures |s| == 12 + |comps[k].name| + 1
  {
    Pack32(CompAddr(comps, base, k)) + Pack32(|comps[k].data|) + Pack32(|comps[k].name| + 1) + comps[k].name + [0]
  }

  /** The table with its first `k` entries. */
  function CompTable(comps: seq<Comp>, base: int, k: nat): (s: seq<byte>)
    requires k <= |comps|
    ensures |s| == EntryOffset(comps, k)
  {
    if k == 0 then Pack64(HeaderSize(comps)) + Pack32(|comps|)
    else CompTable(comps, base, k - 1) + CompEntry(comps, base, k - 1)
  }

  /** `start` followed by the table and the first `k` files. */
  function WithComps(start: seq<byte>, comps: seq<Comp>, k: nat): seq<byte>
    requires k <= |comps|
  {
    var base := |start| + HeaderSize(comps);
    if k == 0 then start + CompTable(comps, base, |comps|)
    else AppendAt(WithComps(start, comps, k - 1), CompAddr(comps, base, k - 1), comps[k - 1].data)
  }

  lemma {:induction false} WithCompsLength(start: seq<byte>, comps: seq<Comp>, k: nat)
    requires k <= |comps|
    ensures |WithComps(start, comps, k)| == CompEnd(comps, |start| + HeaderSize(comps), k)
  {
    hide CompEntry, RoundUp;
    if 0 < k {
      WithCompsLength(start, comps, k - 1);
      AddressesIncrease(comps, |start| + HeaderSize(comps), k - 1);
    }
  }

  /** The whole image. */
  function Image(boot: Option<Binary>, comps: seq<Comp>, blockSize: int): seq<byte>
    requires 0 < blockSize
  {
    WithComps(BootPart(boot, blockSize), comps, |comps|)
  }

  // ----- The reader

  /** The file whose table entry is at `o`. */
  function ReadComp(img: seq<byte>, o: int): Comp
  {
    Comp(Slice(img, o + 12, o + 11 + Word32(img, o + 8)), Slice(img, Word32(img, o), Word32(img, o) + Word32(img, o + 4)))
  }

  /** `n` table entries from offset `o` on. */
  function ReadComps(img: seq<byte>, o: int, n: nat): seq<Comp>
    decreases n
  {
    if n == 0 then [] else [ReadComp(img, o)] + ReadComps(img, o + 12 + Word32(img, o + 8), n - 1)
  }

  /** The first word of the image says where the table is. */
  function ReadTable(img: seq<byte>): seq<Comp>
  {
    ReadComps(img, Word32(img, 0) + 12, Word32(img, Word32(img, 0) + 8))
  }

  /** Every field fits its width; `struct.pack` raises an error otherwise. */
  ghost predicate CompsFit(comps: seq<Comp>, base: int)
  {
    && |comps| < 0x1_0000_0000 && HeaderSize(comps) < 0x1_0000_0000_0000_0000
    && forall k :: 0 <= k < |comps| ==>
         && CompAddr(comps, base, k) < 0x1_0000_0000 && |comps[k].data| < 0x1_0000_0000 && |comps[k].name| + 1 < 0x1_0000_0000
  }

  lemma {:induction false} TablePrefix(comps: seq<Comp>, base: int, k: nat)
    requires k <= |comps|
    ensures CompTable(comps, base, k) <= CompTable(comps, base, |comps|)
    decreases |comps| - k
  {
    hide CompEntry;
    if k < |comps| {
      TablePrefix(comps, base, k + 1);
      assert CompTable(comps, base, k) <= CompTable(comps, base, k + 1);
    }
  }

  lemma {:induction false} CompsPrefix(start: seq<byte>, comps: seq<Comp>, k: nat)
    requires k <= |comps|
    ensures WithComps(start, comps, k) <= WithComps(start, comps, |comps|)
    decreases |comps| - k
  {
    hide CompTable, CompAddr, EntryOffset;
    if k < |comps| {
      CompsPrefix(start, comps, k + 1);
      assert WithComps(start, comps, k) <= WithComps(start, comps, k + 1);
    }
  }

  /** Data, then a table prefix, are in the image. */
  lemma TableIsThere(start: seq<byte>, comps: seq<Comp>, img: seq<byte>, k: nat)
    requires k <= |comps| && img == WithComps(start, comps, |comps|)
    ensures start + CompTable(comps, |start| + HeaderSize(comps), k) <= img
  {
    CompsPrefix(start, comps, 0);
    TablePrefix(comps, |start| + HeaderSize(comps), k);
    hide CompTable, HeaderSize;
  }

  /** Three packed words and a name behind `pre`. */
  lemma EntryReads(pre: seq<byte>, a: int, b: int, name: seq<byte>, img: seq<byte>)
    requires 0 <= a < 0x1_0000_0000 && 0 <= b < 0x1_0000_0000 && |name| + 1 < 0x1_0000_0000
    requires pre + (Pack32(a) + Pack32(b) + Pack32(|name| + 1) + name + [0]) <= img
    ensures Word32(img, |pre|) == a && Word32(img, |pre| + 4) == b && Word32(img, |pre| + 8) == |name| + 1
    ensures Slice(img, |pre| + 12, |pre| + 12 + |name|) == name
  {
    var c := |name| + 1;
    var rest := name + [0];
    var e := Pack32(a) + Pack32(b) + Pack32(c) + name + [0];
    hide Word32, Pack32;
    assert pre + e == pre + Pack32(a) + (Pack32(b) + Pack32(c) + rest);
    assert pre + e == pre + Pack32(a) + Pack32(b) + (Pack32(c) + rest);
    assert pre + e == pre + Pack32(a) + Pack32(b) + Pack32(c) + rest;
    PackedWord(pre, a, Pack32(b) + Pack32(c) + rest);
    PackedWord(pre + Pack32(a), b, Pack32(c) + rest);
    PackedWord(pre + Pack32(a) + Pack32(b), c, rest);
    ReadPrefix(pre + e, img, |pre|);
    ReadPrefix(pre + e, img, |pre| + 4);
    ReadPrefix(pre + e, img, |pre| + 8);
    var front := pre + Pack32(a) + Pack32(b) + Pack32(c);
    assert pre + e == front + name + [0];
    assert front + name <= img;
    assert img[|front|..|front| + |name|] == name;
  }

  /** Entry `k` of the table reads back as file `k`. */
  lemma CompReads(start: seq<byte>, comps: seq<Comp>, img: seq<byte>, k: nat)
    requires k < |comps| && CompsFit(comps, |start| + HeaderSize(comps)) && img == WithComps(start, comps, |comps|)
    ensures ReadComp(img, |start| + EntryOffset(comps, k)) == comps[k]
    ensures Word32(img, |start| + EntryOffset(comps, k) + 8) == |comps[k].name| + 1
  {
    hide *;
    var base := |start| + HeaderSize(comps);
    var pre := start + CompTable(comps, base, k);
    CompFits(comps, base, k);
    EntryIsThere(start, comps, img, k);
    FileIsThere(start, comps, img, k);
    CompReadsBehind(pre, CompAddr(comps, base, k), comps[k], img);
  }

  lemma CompReadsBehind(pre: seq<byte>, a: int, comp: Comp, img: seq<byte>)
    requires 0 <= a < 0x1_0000_0000 && |comp.data| < 0x1_0000_0000 && |comp.name| + 1 < 0x1_0000_0000
    requires pre + (Pack32(a) + Pack32(|comp.data|) + Pack32(|comp.name| + 1) + comp.name + [0]) <= img
    requires Slice(img, a, a + |comp.data|) == comp.data
    ensures ReadComp(img, |pre|) == comp && Word32(img, |pre| + 8) == |comp.name| + 1
  {
    hide Word32, Slice, Pack32;
    EntryReads(pre, a, |comp.data|, comp.name, img);
  }

  lemma CompFits(comps: seq<Comp>, base: nat, k: nat)
    requires k < |comps| && CompsFit(comps, base)
    ensures 0 <= CompAddr(comps, base, k) < 0x1_0000_0000 && |comps[k].data| < 0x1_0000_0000 && |comps[k].name| + 1 < 0x1_0000_0000
  {
    hide CompAddr, HeaderSize, CompEnd;
    AddressesIncrease(comps, base, k);
  }

  lemma TableGrows(comps: seq<Comp>, base: int, k: nat)
    requires k < |comps|
    ensures CompTable(comps, base, k + 1) == CompTable(comps, base, k) + CompEntry(comps, base, k)
  {
    hide CompEntry, Pack32, Pack64, HeaderSize;
  }

  /** Entry `k` is in the image, behind the entries in front of it. */
  lemma EntryIsThere(start: seq<byte>, comps: seq<Comp>, img: seq<byte>, k: nat)
    requires k < |comps| && img == WithComps(start, comps, |comps|)
    ensures var base := |start| + HeaderSize(comps);
            start + CompTable(comps, base, k)
            + (Pack32(CompAddr(comps, base, k)) + Pack32(|comps[k].data|) + Pack32(|comps[k].name| + 1) + comps[k].name + [0]) <= img
  {
    hide CompAddr, Pack32, Pack64, WithComps, EntryOffset, HeaderSize, CompTable;
    var base := |start| + HeaderSize(comps);
    TableIsThere(start, comps, img, k + 1);
    TableGrows(comps, base, k);
    assert start + (CompTable(comps, base, k) + CompEntry(comps, base, k)) == start + CompTable(comps, base, k) + CompEntry(comps, base, k);
  }

  /** File `k` is where its table entry says. */
  lemma FileIsThere(start: seq<byte>, comps: seq<Comp>, img: seq<byte>, k: nat)
    requires k < |comps| && img == WithComps(start, comps, |comps|)
    ensures var a := CompAddr(comps, |start| + HeaderSize(comps), k);
            Slice(img, a, a + |comps[k].data|) == comps[k].data
  {
    hide *;
    var base := |start| + HeaderSize(comps);
    WithCompsLength(start, comps, k);
    AddressesIncrease(comps, base, k);
    CompsPrefix(start, comps, k + 1);
    WithOneMore(start, comps, k);
    AppendedData(WithComps(start, comps, k), CompAddr(comps, base, k), comps[k].data, img);
  }

  lemma {:induction false} CompsRead(start: seq<byte>, comps: seq<Comp>, img: seq<byte>, k: nat)
    requires k <= |comps| && CompsFit(comps, |start| + HeaderSize(comps)) && img == WithComps(start, comps, |comps|)
    ensures ReadComps(img, |start| + EntryOffset(comps, k), |comps| - k) == comps[k..]
    decreases |comps| - k
  {
    hide CompsFit, WithComps, ReadComp, Word32;
    if k < |comps| {
      CompReads(start, comps, img, k);
      CompsRead(start, comps, img, k + 1);
      assert comps[k..] == [comps[k]] + comps[k + 1..];
    }
  }

  lemma WithOneMore(start: seq<byte>, comps: seq<Comp>, k: nat)
    requires k < |comps|
    ensures WithComps(start, comps, k + 1)
         == AppendAt(WithComps(start, comps, k), CompAddr(comps, |start| + HeaderSize(comps), k), comps[k].data)
  {
    hide CompAddr, HeaderSize, AppendAt, CompTable;
  }

  /** The number of files. */
  lemma TableWords(start: seq<byte>, comps: seq<Comp>, img: seq<byte>)
    requires |comps| < 0x1_0000_0000 && img == WithComps(start, comps, |comps|)
    ensures Word32(img, |start| + 8) == |comps|
  {
    hide *;
    var a, c := Pack64(HeaderSize(comps)), Pack32(|comps|);
    HeadIsThere(start, comps, img);
    assert start + (a + c) == start + a + c + [];
    PackedWord(start + a, |comps|, []);
    ReadPrefix(start + (a + c), img, |start| + 8);
  }

  lemma HeadIsThere(start: seq<byte>, comps: seq<Comp>, img: seq<byte>)
    requires img == WithComps(start, comps, |comps|)
    ensures start + (Pack64(HeaderSize(comps)) + Pack32(|comps|)) <= img
  {
    hide WithComps, Pack64, Pack32, HeaderSize, EntryOffset;
    TableIsThere(start, comps, img, 0);
  }

  /** The first word of the boot part is the offset of its end. */
  lemma FirstWordIsTableOffset(boot: Option<Binary>, blockSize: int, img: seq<byte>)
    requires 0 < blockSize && BootPart(boot, blockSize) <= img && (boot.Some? ==> BootFits(boot.value, blockSize))
    ensures Word32(img, 0) == |BootPart(boot, blockSize)|
  {
    match boot
    case None =>
      assert Pack64(8) == [] + Pack32(8) + Pack32(0);
      PackedWord([], 8, Pack32(0));
      hide Pack32, Word32;
      ReadPrefix(Pack64(8), img, 0);
    case Some(bin) =>
      FixedWords(bin, blockSize, img);
      hide BootFits, Word32;
      BootPartLength(bin, blockSize);
  }

  lemma BootPartLength(bin: Binary, blockSize: int)
    requires 0 < blockSize
    ensures |BootPart(Some(bin), blockSize)| == FsOffset(bin.segments, blockSize)
  {
    WithSegmentsLength(bin, blockSize, |bin.segments|);
    RoundUpBounds(SegmentOffset(bin.segments, blockSize, |bin.segments|), 8);
    hide WithSegments, SegmentOffset, RoundUp;
  }

  lemma StartIsPrefix(start: seq<byte>, comps: seq<Comp>)
    ensures start <= WithComps(start, comps, |comps|)
  {
    hide CompTable, HeaderSize;
    CompsPrefix(start, comps, 0);
  }

  lemma CountFits(comps: seq<Comp>, base: int)
    requires CompsFit(comps, base)
    ensures |comps| < 0x1_0000_0000 && HeaderSize(comps) < 0x1_0000_0000_0000_0000
  {
    hide HeaderSize, CompAddr;
  }

  /** The table behind `start` reads back. */
  lemma FilesRoundTrip(start: seq<byte>, comps: seq<Comp>, img: seq<byte>)
    requires CompsFit(comps, |start| + HeaderSize(comps)) && img == WithComps(start, comps, |comps|)
    requires Word32(img, 0) == |start|
    ensures ReadTable(img) == comps && ReadTableSize(img) == HeaderSize(comps)
  {
    hide WithComps, ReadComps, Word32, HeaderSize, CompAddr, CompsFit;
    CountFits(comps, |start| + HeaderSize(comps));
    TableSizeWords(start, comps, img);
    assert comps[0..] == comps;
    TableWords(start, comps, img);
    CompsRead(start, comps, img, 0);
  }

  function ReadTableSize(img: seq<byte>): int
  {
    Word32(img, Word32(img, 0)) + 0x1_0000_0000 * Word32(img, Word32(img, 0) + 4)
  }

  /** The size of the table in its first two words. */
  lemma TableSizeWords(start: seq<byte>, comps: seq<Comp>, img: seq<byte>)
    requires HeaderSize(comps) < 0x1_0000_0000_0000_0000 && img == WithComps(start, comps, |comps|)
    ensures Word32(img, |start|) + 0x1_0000_0000 * Word32(img, |start| + 4) == HeaderSize(comps)
  {
    hide WithComps, Word32, Pack32, HeaderSize;
    HeadIsThere(start, comps, img);
    var n, c := HeaderSize(comps), Pack32(|comps|);
    var lo, hi := n % 0x1_0000_0000, n / 0x1_0000_0000;
    var t := start + (Pack64(n) + c);
    assert t == start + Pack32(lo) + (Pack32(hi) + c);
    assert t == start + Pack32(lo) + Pack32(hi) + c;
    PackedWord(start, lo, Pack32(hi) + c);
    PackedWord(start + Pack32(lo), hi, c);
    ReadPrefix(t, img, |start|);
    ReadPrefix(t, img, |start| + 4);
  }

  /** A reader that starts at the first word of the image finds every file, name and contents, and the boot binary. */
  lemma ImageRoundTrip(boot: Option<Binary>, comps: seq<Comp>, blockSize: int)
    requires 0 < blockSize && (boot.Some? ==> BootFits(boot.value, blockSize))
    requires CompsFit(comps, |BootPart(boot, blockSize)| + HeaderSize(comps))
    ensures ReadTable(Image(boot, comps, blockSize)) == comps
    ensures ReadTableSize(Image(boot, comps, blockSize)) == HeaderSize(comps)
    ensures boot.Some? ==> ReadBinary(Image(boot, comps, blockSize)) == boot.value
  {
    var start := BootPart(boot, blockSize);
    var img := Image(boot, comps, blockSize);
    hide BootPart, WithComps, BootFits, CompsFit, HeaderSize, Word32, ReadTable, ReadTableSize, ReadBinary;
    StartIsPrefix(start, comps);
    FirstWordIsTableOffset(boot, blockSize, img);
    FilesRoundTrip(start, comps, img);
    if boot.Some? {
      BootRoundTrip(boot.value, blockSize, img);
    }
  }
}
