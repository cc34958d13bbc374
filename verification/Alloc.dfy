// The first-fit allocator of kernel/alloc.c, working on the headers in memory.
module Alloc {
  import opened FreeList
  import opened Links
  import opened Banks
  import opened Arithmetic

  /** Largest value of an `int`; every address and size stays below it. */
  const INT_MAX := 0x7FFF_FFFF

  /** Chunk `i` is the first one that holds `n` bytes; `i` is the length of the list if there is none. */
  ghost predicate FirstFit(cs: seq<Chunk>, n: int, i: nat)
  {
    i <= |cs| && (forall k :: 0 <= k < i ==> cs[k].size < n) && (i < |cs| ==> n <= cs[i].size)
  }

  /** `result` is the lowest address with room for `n` bytes, aligned. */
  ghost predicate AlignedRoom(free: set<int>, n: int, align: int, result: int)
    requires 0 < align
  {
    exists p :: LowestRoom(free, n, p) && result == AlignUp(p, align)
  }

  /** The first chunk that fits starts at the lowest address with that much room; if none fits, there is no room. */
  lemma FirstFitIsLowest(cs: seq<Chunk>, limit: int, n: int, i: nat)
    requires WellFormed(cs, limit) && 0 < n && FirstFit(cs, n, i)
    ensures i < |cs| ==> LowestRoom(FreeBytes(cs, limit), n, cs[i].addr)
    ensures i == |cs| ==> NoRoom(FreeBytes(cs, limit), n)
  {
    hide Room, FreeBytes;
    if i < |cs| {
      ChunkIsRoom(cs, limit, n, i);
    }
    forall p | Room(FreeBytes(cs, limit), n, p)
      ensures i < |cs| && cs[i].addr <= p
    {
      var k := RoomIsInOneChunk(cs, limit, n, p);
      assert i < k ==> cs[i].End() < cs[k].addr;
      assert i < |cs| ==> ChunkOk(cs[i], limit);
    }
  }

  lemma AlignedDown(n: int)
    ensures AlignDown(n, MIN_CHUNK_SIZE) % 8 == 0 && n - 8 < AlignDown(n, MIN_CHUNK_SIZE) <= n
  {
  }

  lemma AlignedUp(n: int)
    ensures AlignUp(n, MIN_CHUNK_SIZE) % 8 == 0 && n <= AlignUp(n, MIN_CHUNK_SIZE) < n + 8
  {
  }

  /** `pos_alloc_t` together with the memory it manages, in cells of eight bytes from address 0 on. */
  class Allocator {
    const memory: array<Cell>
    var firstFree: int
    /** Power accounting, or null while `track_pwd` is 0. */
    var account: Accounting?
    /** The list that the headers spell out. */
    ghost var chunks: seq<Chunk>
    /** The managed addresses are `lo..hi`. */
    ghost var lo: int
    ghost var hi: int

    constructor (m: array<Cell>)
      ensures memory == m && account == null
    {
      memory := m;
      firstFree := 0;
      account := null;
      chunks, lo, hi := [], 0, 0;
    }

    ghost predicate Represents(cs: seq<Chunk>)
      reads `firstFree, `hi, memory
    {
      WellFormed(cs, hi) && Linked(memory[..], firstFree, cs)
    }

    ghost function Free(): set<int>
      reads `chunks, `hi
    {
      FreeBytes(chunks, hi)
    }

    ghost predicate InRegion()
      reads `chunks, `lo, `hi
    {
      && 0 < lo <= hi <= 8 * memory.Length && 8 * memory.Length <= INT_MAX
      && forall a :: a in Free() ==> lo <= a < hi
    }

    ghost predicate BanksAgree()
      reads this, account, if account == null then {} else {account.pwdCount}
    {
      account != null ==> account.InBanks(lo, hi) && account.Agrees(Payload(chunks, hi))
    }

    ghost predicate Valid()
      reads this, memory, account, if account == null then {} else {account.pwdCount}
    {
      InRegion() && Represents(chunks) && BanksAgree()
    }

    ghost function Footprint(): set<object>
      reads this
    {
      {this, memory} + (if account == null then {} else {account, account.pwdCount})
    }

    /** `pos_alloc_account_alloc`: `chunk..chunk + size` stops being free payload. */
    method AccountAlloc(chunk: int, size: int, ghost payload: set<int>)
      requires account != null ==> account.Agrees(payload) && account.InBanks(lo, hi)
      requires account != null ==> 0 <= size && lo <= chunk && chunk + size <= hi && Range(chunk, chunk + size) <= payload
      modifies if account == null then {} else {account, account.pwdCount}
      ensures account != null ==> account.Agrees(After(payload, Range(chunk, chunk + size), -1))
    {
      hide Range, Moved, Within, Counts, Powered;
      if account != null {
        ghost var counts := account.pwdCount[..];
        CountsWithin(counts, payload, account.firstBankAddr, account.bankSize, chunk, chunk + size, -1);
        MovedCounts(counts, payload, account.firstBankAddr, account.bankSize, chunk, chunk + size, -1);
        account.Account(chunk, size, -1);
      }
    }

    /** `pos_alloc_account_free`: `chunk..chunk + size` becomes free payload. */
    method AccountFree(chunk: int, size: int, ghost payload: set<int>)
      requires account != null ==> account.Agrees(payload) && account.InBanks(lo, hi)
      requires account != null ==> 0 <= size && lo <= chunk && chunk + size <= hi && Apart(Range(chunk, chunk + size), payload)
      modifies if account == null then {} else {account, account.pwdCount}
      ensures account != null ==> account.Agrees(After(payload, Range(chunk, chunk + size), 1))
    {
      hide Range, Moved, Within, Counts, Powered;
      if account != null {
        ghost var counts := account.pwdCount[..];
        CountsWithin(counts, payload, account.firstBankAddr, account.bankSize, chunk, chunk + size, 1);
        MovedCounts(counts, payload, account.firstBankAddr, account.bankSize, chunk, chunk + size, 1);
        account.Account(chunk, size, 1);
      }
    }

    /** `pt` stands at chunk `i` of the list, or is null behind the last one. */
    ghost predicate At(pt: int, i: nat)
      reads this, memory
    {
      && i <= |chunks| && pt == Addr(chunks, i) && (pt == 0 <==> i == |chunks|)
      && (pt != 0 ==> 0 <= pt / 8 < memory.Length && memory[pt / 8] == Cell(chunks[i].size, Addr(chunks, i + 1)))
    }

    lemma WalkAt(i: nat)
      requires Represents(chunks) && i <= |chunks|
      ensures At(Addr(chunks, i), i)
      ensures firstFree == Addr(chunks, 0)
      ensures i < |chunks| ==> ChunkOk(chunks[i], hi)
    {
      if i < |chunks| {
        assert ChunkOk(chunks[i], hi) && HeaderAt(memory[..], chunks, i);
      }
    }

    lemma Neighbours(i: nat)
      requires Represents(chunks) && i < |chunks|
      ensures ChunkOk(chunks[i], hi)
      ensures 0 < i ==> At(chunks[i - 1].addr, i - 1) && ChunkOk(chunks[i - 1], hi) && chunks[i - 1].End() < chunks[i].addr
    {
      WalkAt(i);
      if 0 < i {
        WalkAt(i - 1);
        ChunksApart(chunks, hi, i - 1, i);
      }
    }

    /** A block of at least one byte that fits is aligned and inside chunk `i`. */
    ghost predicate Fits(i: nat, n: int)
      reads this
    {
      i < |chunks| && 0 < n <= chunks[i].size && n % 8 == 0
    }

    /** What taking the first `n` bytes of chunk `i` does to the list, its memory and its payload. */
    lemma TakeFacts(i: nat, n: int)
      requires Represents(chunks) && InRegion() && Fits(i, n)
      ensures var c := chunks[i];
              && lo <= c.addr && c.End() <= hi && ChunkOk(c, hi)
              && Linked(TakenMemory(memory[..], chunks, i, n),
                        if 0 < i then firstFree else if n < c.size then c.addr + n else Addr(chunks, i + 1),
                        Taken(chunks, i, n))
      ensures WellFormed(Taken(chunks, i, n), hi)
      ensures Range(chunks[i].addr, chunks[i].addr + n) <= Free()
      ensures FreeBytes(Taken(chunks, i, n), hi) == Free() - Range(chunks[i].addr, chunks[i].addr + n)
      ensures Range(chunks[i].addr + 8, chunks[i].End()) <= Payload(chunks, hi)
      ensures Payload(Taken(chunks, i, n), hi) == Payload(chunks, hi) - (Range(chunks[i].addr + 8, chunks[i].addr + n) + NewHeader(chunks[i], n))
    {
      hide Linked, FreeBytes, Payload, Taken, WellFormed, Range, TakenMemory, NewHeader;
      ChunksOk(chunks, hi);
      TakenLinked(memory[..], firstFree, chunks, i, n, hi);
      TakenIsWellFormed(chunks, i, n, hi);
      TakenRemovesExactly(chunks, i, n, hi);
      TakenPayload(chunks, i, n, hi);
      ChunkPayload(chunks, i, hi);
      assert chunks[i].addr in Range(chunks[i].addr, chunks[i].addr + n);
      assert chunks[i].addr in Free();
    }

    /** The walk of `pos_alloc`: the first chunk that holds `n` bytes, and the one before it. */
    method FindChunk(n: int) returns (pt: int, prev: int, ghost i: nat)
      requires Represents(chunks)
      ensures At(pt, i) && FirstFit(chunks, n, i) && pt % 8 == 0 && 0 <= pt
      ensures prev == if i == 0 then 0 else chunks[i - 1].addr
    {
      hide WellFormed, Linked;
      pt, prev, i := firstFree, 0, 0;
      WalkAt(0);
      while pt != 0 && memory[pt / 8].size < n
        invariant At(pt, i) && pt % 8 == 0 && 0 <= pt && prev == if i == 0 then 0 else chunks[i - 1].addr
        invariant forall k :: 0 <= k < i ==> chunks[k].size < n
        decreases |chunks| - i
      {
        prev := pt;
        pt := memory[pt / 8].next;
        i := i + 1;
        WalkAt(i);
      }
    }

    /** `prev->next = link`, or the list head if there is no chunk in front. */
    method SetLink(prev: int, link: int)
      requires prev != 0 ==> 0 <= prev / 8 < memory.Length
      modifies this`firstFree, memory
      ensures prev == 0 ==> firstFree == link && memory[..] == old(memory[..])
      ensures prev != 0 ==> firstFree == old(firstFree) &&
                            memory[..] == old(memory[..])[prev / 8 := Cell(old(memory[prev / 8].size), link)]
    {
      if prev != 0 {
        memory[prev / 8] := memory[prev / 8].(next := link);
      } else {
        firstFree := link;
      }
    }

    /** The writes of `pos_alloc`: the first `n` bytes of the chunk at `pt` are cut off. */
    method Carve(pt: int, prev: int, n: int, ghost i: nat)
      requires At(pt, i) && Fits(i, n) && ChunkOk(chunks[i], hi) && hi <= 8 * memory.Length
      requires prev == if i == 0 then 0 else chunks[i - 1].addr
      requires 0 < i ==> At(prev, i - 1) && ChunkOk(chunks[i - 1], hi) && chunks[i - 1].End() < pt
      modifies this`firstFree, memory
      ensures memory[..] == TakenMemory(old(memory[..]), chunks, i, n)
      ensures firstFree == if 0 < i then old(firstFree) else if n < chunks[i].size then pt + n else Addr(chunks, i + 1)
    {
      if memory[pt / 8].size == n {
        // the whole chunk disappears
        SetLink(prev, memory[pt / 8].next);
      } else {
        var newPt := pt + n;
        memory[newPt / 8] := Cell(memory[pt / 8].size - n, memory[pt / 8].next);
        SetLink(prev, newPt);
      }
    }

    /** Cutting the block off takes exactly its bytes from the free set and keeps the list well formed. */
    method Take(pt: int, prev: int, n: int, ghost i: nat)
      requires Represents(chunks) && InRegion()
      requires At(pt, i) && Fits(i, n) && prev == if i == 0 then 0 else chunks[i - 1].addr
      modifies this`firstFree, this`chunks, memory
      ensures Represents(chunks) && InRegion()
      ensures var c := old(chunks)[i];
              && c.addr == pt && lo <= pt && c.End() <= hi && c.size % 8 == 0
              && Range(pt, pt + n) <= old(Free()) && Free() == old(Free()) - Range(pt, pt + n)
              && Range(pt + 8, c.End()) <= old(Payload(chunks, hi))
              && Payload(chunks, hi) == old(Payload(chunks, hi)) - (Range(pt + 8, pt + n) + NewHeader(c, n))
    {
      hide WellFormed, Linked, FreeBytes, Payload, Taken, Range, NewHeader, TakenMemory;
      Neighbours(i);
      TakeFacts(i, n);
      Carve(pt, prev, n, i);
      chunks := Taken(chunks, i, n);
    }

    lemma BlockAndHeader(payload: set<int>, pt: int, chunkSize: int, n: int)
      requires 8 <= n <= chunkSize && n % 8 == chunkSize % 8 == 0
      requires Range(pt + 8, pt + chunkSize) <= payload
      ensures var block, header := Range(pt + 8, pt + n), NewHeader(Chunk(pt, chunkSize), n);
              && block <= payload && header <= After(payload, block, -1)
              && After(After(payload, block, -1), header, -1) == payload - (block + header)
              && header == (if n == chunkSize then {} else Range(pt + n, pt + n + 8))
              && (n == chunkSize ==> payload - (block + header) == After(payload, block, -1))
    {
      hide Range;
      forall a | pt + 8 <= a < pt + chunkSize
        ensures a in payload
      {
        assert a in Range(pt + 8, pt + chunkSize);
      }
    }

    /** The accounting of `pos_alloc`: the block and the header of the remainder stop being payload. */
    method AccountTake(pt: int, chunkSize: int, n: int, ghost payload: set<int>)
      requires account != null ==> account.Agrees(payload) && account.InBanks(lo, hi)
      requires account != null ==> Range(pt + 8, pt + chunkSize) <= payload
      requires lo <= pt && pt + chunkSize <= hi && 8 <= n <= chunkSize && n % 8 == chunkSize % 8 == 0
      modifies if account == null then {} else {account, account.pwdCount}
      ensures account != null ==> account.Agrees(payload - (Range(pt + 8, pt + n) + NewHeader(Chunk(pt, chunkSize), n)))
    {
      hide Range, NewHeader, After, Accounting.Agrees, Accounting.InBanks;
      ghost var block, header := Range(pt + 8, pt + n), NewHeader(Chunk(pt, chunkSize), n);
      if account == null {
        return;
      }
      BlockAndHeader(payload, pt, chunkSize, n);
      // the header of this chunk was accounted as allocated already
      AccountAlloc(pt + 8, n - 8, payload);
      if n != chunkSize {
        AccountAlloc(pt + n, 8, After(payload, block, -1));
      }
    }

    /** Cuts the block off and accounts for it. */
    method TakeAccounted(pt: int, prev: int, n: int, ghost i: nat)
      requires Valid() && pt != 0 && At(pt, i) && Fits(i, n) && prev == if i == 0 then 0 else chunks[i - 1].addr
      requires 8 <= n
      modifies Footprint()
      ensures Valid() && account == old(account) && lo == old(lo) && hi == old(hi)
      ensures Range(pt, pt + n) <= old(Free()) && Free() == old(Free()) - Range(pt, pt + n)
    {
      hide FreeBytes, Payload, Range, NewHeader, Represents, InRegion, Accounting.Agrees, Accounting.InBanks;
      ghost var payload := Payload(chunks, hi);
      var chunkSize := memory[pt / 8].size;
      Take(pt, prev, n, i);
      AccountTake(pt, chunkSize, n, payload);
    }

    lemma FitsLowest(n: int, i: nat)
      requires Represents(chunks) && 0 < n && FirstFit(chunks, n, i)
      ensures i < |chunks| ==> LowestRoom(Free(), n, chunks[i].addr)
      ensures i == |chunks| ==> NoRoom(Free(), n)
    {
      hide Linked, WellFormed, FirstFit, LowestRoom, NoRoom, FreeBytes;
      FirstFitIsLowest(chunks, hi, n, i);
    }

    /**
     * `pos_alloc`: first fit. Either no chunk holds the rounded size, and nothing changes; or
     * the block is the start of the first chunk that does, and leaves the free set.
     */
    method PosAlloc(size: int) returns (result: int, ghost i: nat)
      requires Valid() && 0 <= size <= INT_MAX - 7 && (0 < size || account == null)
      modifies Footprint()
      ensures Valid() && account == old(account) && lo == old(lo) && hi == old(hi)
      ensures FirstFit(old(chunks), AlignUp(size, MIN_CHUNK_SIZE), i)
      ensures result == Addr(old(chunks), i)
      ensures (result == 0 <==> i == |old(chunks)|) && result % 8 == 0 && 0 <= result
      ensures result == 0 ==> chunks == old(chunks)
      ensures var block := Range(result, result + AlignUp(size, MIN_CHUNK_SIZE));
              result != 0 ==> block <= old(Free()) && Free() == old(Free()) - block
      ensures 0 < size ==>
                var n := AlignUp(size, MIN_CHUNK_SIZE);
                if result == 0 then NoRoom(old(Free()), n) else LowestRoom(old(Free()), n, result)
    {
      hide AlignUp, FreeBytes, Payload, Range, BanksAgree, Represents, InRegion, NoRoom, LowestRoom;
      AlignedUp(size);
      var n := AlignUp(size, MIN_CHUNK_SIZE);
      var pt, prev;
      pt, prev, i := FindChunk(n);
      result := pt;
      if 0 < n {
        FitsLowest(n, i);
      }
      // for size 0 the remainder of the chunk is the chunk itself, whose header would be written again unchanged
      if pt == 0 || n == 0 {
        return;
      }
      TakeAccounted(pt, prev, n, i);
    }

    // ----- Set-up and queries

    /**
     * `pos_alloc_init`: with room for a header behind the aligned start, the list is the one chunk
     * that covers the region. With less but some room, the header says size 0 and no list of
     * proper chunks is represented.
     */
    method PosAllocInit(chunk: int, size: int)
      requires 0 < chunk && chunk + size <= 8 * memory.Length <= INT_MAX - 7 && chunk <= INT_MAX - 7
      modifies this, memory
      ensures var start := AlignUp(chunk, MIN_CHUNK_SIZE);
              var room := size - (start - chunk);
              && firstFree == start && account == null
              && (8 <= room ==> Valid() && lo == start && hi == start + AlignDown(room, MIN_CHUNK_SIZE)
                                && chunks == [Chunk(lo, hi - lo)] && Free() == Range(lo, hi))
              && (0 < room < 8 ==> !Representable(memory[..], firstFree))
              && (room <= 0 ==> memory[..] == old(memory[..]))
    {
      hide AlignUp, AlignDown, Representable, FreeBytes, Range, Valid;
      AlignedUp(chunk);
      AlignedDown(size - (AlignUp(chunk, MIN_CHUNK_SIZE) - chunk));
      var start := AlignUp(chunk, MIN_CHUNK_SIZE);
      account := null;
      firstFree := start;
      var room := size - (start - chunk);
      ghost var rounded := AlignDown(room, MIN_CHUNK_SIZE);
      if room > 0 {
        memory[start / 8] := Cell(AlignDown(room, MIN_CHUNK_SIZE), 0);
        if rounded == 0 {
          NoChunk(memory[..], start);
        }
      }
      if 8 <= room {
        chunks, lo, hi := [Chunk(start, rounded)], start, start + rounded;
        OneChunkIsValid();
      }
    }

    /** What one header without a successor represents. */
    lemma OneChunkIsValid()
      requires account == null && chunks == [Chunk(lo, hi - lo)] && firstFree == lo
      requires 0 < lo && lo % 8 == 0 && 8 <= hi - lo && (hi - lo) % 8 == 0 && hi <= 8 * memory.Length <= INT_MAX
      requires memory[lo / 8] == Cell(hi - lo, 0)
      ensures Valid() && Free() == Range(lo, hi)
    {
      hide Range;
      forall a
        ensures Covers(chunks, a) <==> lo <= a < hi
      {
        Single(chunks[0], a);
      }
      assert HeaderAt(memory[..], chunks, 0);
    }

    /** `pos_alloc_info`: the number of free bytes and of chunks. */
    method PosAllocInfo() returns (first: int, size: int, nbChunks: int)
      requires Valid()
      ensures first == Addr(chunks, 0) && nbChunks == |chunks|
      ensures size == |Free()|
    {
      hide WellFormed, Linked, FreeBytes, Accounting.Agrees, Accounting.InBanks;
      first, size, nbChunks := firstFree, 0, 0;
      var pt := firstFree;
      WalkAt(0);
      while pt != 0
        invariant 0 <= nbChunks && At(pt, nbChunks)
        invariant size + TotalSize(chunks[nbChunks..]) == TotalSize(chunks)
        decreases |chunks| - nbChunks
      {
        size := size + memory[pt / 8].size;
        pt := memory[pt / 8].next;
        nbChunks := nbChunks + 1;
        WalkAt(nbChunks);
      }
      TotalSizeIsFreeCount(chunks, hi);
    }

    /** A client's write into memory outside the free set leaves the allocator alone. */
    method ClientStore(a: int, value: Cell)
      requires Valid() && a % 8 == 0 && 0 <= a / 8 < memory.Length && a !in Free()
      modifies memory
      ensures Valid()
    {
      forall i | 0 <= i < |chunks|
        ensures chunks[i].addr / 8 != a / 8
      {
        HeaderOutside(chunks, hi, i, a);
      }
      ghost var mem := memory[..];
      memory[a / 8] := value;
      assert forall i :: 0 <= i < |chunks| && HeaderAt(mem, chunks, i) ==> HeaderAt(memory[..], chunks, i);
    }

    /** `track_pwd` is set, with counters that agree with the current free payload. */
    method TrackPower(counters: Accounting)
      requires Valid() && account == null
      requires counters.InBanks(lo, hi) && counters.Agrees(Payload(chunks, hi))
      modifies this`account
      ensures Valid() && account == counters && Free() == old(Free()) && chunks == old(chunks)
    {
      hide WellFormed, Linked, FreeBytes, Payload, Accounting.Agrees, Accounting.InBanks;
      account := counters;
    }

    // ----- Freeing

    /** What giving block `b` back in front of chunk `i` does to the list, its memory and its payload. */
    lemma GiveFacts(i: nat, b: Chunk)
      requires Represents(chunks) && InRegion() && ChunkOk(b, hi) && lo <= b.addr && InsertionPoint(chunks, i, b)
      ensures WellFormed(Given(chunks, i, b), hi)
      ensures Linked(GivenMemory(memory[..], chunks, i, b), if 0 < i then firstFree else b.addr, Given(chunks, i, b))
      ensures FreeBytes(Given(chunks, i, b), hi) == Free() + Range(b.addr, b.End())
      ensures Payload(Given(chunks, i, b), hi) == Payload(chunks, hi) + NewPayload(chunks, i, b)
      ensures Payload(chunks, hi) !! NewPayload(chunks, i, b)
    {
      hide Linked, FreeBytes, Payload, Given, WellFormed, Range, GivenMemory, NewPayload;
      GivenIsWellFormed(chunks, i, b, hi);
      GivenLinked(memory[..], firstFree, chunks, i, b, hi);
      GivenAddsExactly(chunks, i, b, hi);
      GivenPayload(chunks, i, b, hi);
    }

    /** The walk of `pos_free`: the first chunk behind address `chunk`, and the one before it. */
    method FindBehind(chunk: int) returns (next: int, prev: int, ghost i: nat)
      requires Represents(chunks)
      ensures At(next, i) && (i < |chunks| ==> chunk <= chunks[i].addr)
      ensures prev == (if i == 0 then 0 else chunks[i - 1].addr) && (0 < i ==> chunks[i - 1].addr < chunk)
    {
      hide WellFormed, Linked;
      next, prev, i := firstFree, 0, 0;
      WalkAt(0);
      while next != 0 && next < chunk
        invariant At(next, i) && prev == if i == 0 then 0 else chunks[i - 1].addr
        invariant 0 < i ==> chunks[i - 1].addr < chunk
        decreases |chunks| - i
      {
        prev := next;
        next := memory[next / 8].next;
        i := i + 1;
        WalkAt(i);
      }
    }

    lemma FoundBehind(next: int, prev: int, i: nat, b: Chunk)
      requires Represents(chunks) && InRegion() && ChunkOk(b, hi) && Free() !! Range(b.addr, b.End())
      requires At(next, i) && (i < |chunks| ==> b.addr <= chunks[i].addr)
      requires prev == (if i == 0 then 0 else chunks[i - 1].addr) && (0 < i ==> chunks[i - 1].addr < b.addr)
      ensures InsertionPoint(chunks, i, b)
      ensures prev != 0 ==> 0 <= prev / 8 < memory.Length
      ensures TouchesPrevious(chunks, i, b) <==> prev != 0 && prev + memory[prev / 8].size == b.addr
      ensures TouchesNext(chunks, i, b) <==> b.End() == next
      ensures b.End() == next ==> next + 8 <= hi
      ensures NewPayload(chunks, i, b) == Regained(b.addr, b.size, TouchesPrevious(chunks, i, b), b.End() == next)
    {
      hide Linked, FreeBytes, Range, NewPayload, Regained;
      FirstBehindIsInsertionPoint(chunks, i, b, hi);
      hide WellFormed;
      if i < |chunks| {
        WalkAt(i);
      }
      if 0 < i {
        WalkAt(i - 1);
      }
      RegainedIsNewPayload(chunks, i, b);
    }

    /** The writes of `pos_free`: the header of the block and of the chunk in front, coalesced where they touch. */
    method Merge(chunk: int, n: int, next: int, prev: int, ghost i: nat)
      requires i <= |chunks| && InsertionPoint(chunks, i, Chunk(chunk, n)) && ChunkOk(Chunk(chunk, n), hi)
      requires At(next, i) && hi <= 8 * memory.Length
      requires prev == if i == 0 then 0 else chunks[i - 1].addr
      requires 0 < i ==> At(prev, i - 1) && ChunkOk(chunks[i - 1], hi)
      modifies this`firstFree, memory
      ensures memory[..] == GivenMemory(old(memory[..]), chunks, i, Chunk(chunk, n))
      ensures firstFree == if 0 < i then old(firstFree) else chunk
    {
      if chunk + n == next {
        // coalesce with next
        memory[chunk / 8] := Cell(n + memory[next / 8].size, memory[next / 8].next);
      } else {
        memory[chunk / 8] := Cell(n, next);
      }
      if prev != 0 {
        if prev + memory[prev / 8].size == chunk {
          // coalesce with previous
          memory[prev / 8] := Cell(memory[prev / 8].size + memory[chunk / 8].size, memory[chunk / 8].next);
        } else {
          memory[prev / 8] := memory[prev / 8].(next := chunk);
        }
      } else {
        firstFree := chunk;
      }
    }

    /** Giving the block back adds exactly its bytes to the free set and keeps the list well formed. */
    method Give(chunk: int, n: int, next: int, prev: int, ghost i: nat)
      requires Represents(chunks) && InRegion()
      requires InsertionPoint(chunks, i, Chunk(chunk, n)) && ChunkOk(Chunk(chunk, n), hi) && lo <= chunk
      requires At(next, i) && prev == if i == 0 then 0 else chunks[i - 1].addr
      modifies this`firstFree, this`chunks, memory
      ensures Represents(chunks) && InRegion()
      ensures Free() == old(Free()) + Range(chunk, chunk + n)
      ensures var new' := NewPayload(old(chunks), i, Chunk(chunk, n));
              old(Payload(chunks, hi)) !! new' && Payload(chunks, hi) == old(Payload(chunks, hi)) + new'
    {
      hide WellFormed, Linked, FreeBytes, Payload, Given, Range, NewPayload, GivenMemory;
      if 0 < i {
        WalkAt(i - 1);
      }
      GiveFacts(i, Chunk(chunk, n));
      Merge(chunk, n, next, prev, i);
      chunks := Given(chunks, i, Chunk(chunk, n));
    }

    /** The accounting of `pos_free`: one header fewer behind a coalesced block, one more in front of a separate one. */
    method AccountGive(chunk: int, n: int, touchesPrevious: bool, touchesNext: bool, ghost payload: set<int>)
      requires account != null ==> account.Agrees(payload) && account.InBanks(lo, hi)
      requires account != null ==> Apart(Regained(chunk, n, touchesPrevious, touchesNext), payload)
      requires lo <= chunk && chunk + n <= hi && 8 <= n && (touchesNext ==> chunk + n + 8 <= hi)
      modifies if account == null then {} else {account, account.pwdCount}
      ensures account != null ==> account.Agrees(After(payload, Regained(chunk, n, touchesPrevious, touchesNext), 1))
    {
      hide Range, Regained, Apart, After, Accounting.Agrees, Accounting.InBanks;
      if account == null {
        return;
      }
      GainFacts(payload, chunk, n, touchesPrevious, touchesNext);
      ghost var header := if touchesNext then Range(chunk + n, chunk + n + 8) else {};
      if touchesNext {
        AccountFree(chunk + n, 8, payload);
      }
      var first := if touchesPrevious then chunk else chunk + 8;
      AccountFree(first, chunk + n - first, After(payload, header, 1));
    }

    /**
     * `pos_free`: the bytes of the rounded block join the free set. Coalescing on either side
     * shows only in the list, which stays well formed and therefore is the one list of its set.
     */
    method PosFree(chunk: int, size: int)
      requires Valid() && 0 < size <= INT_MAX - 7 && chunk % 8 == 0
      requires lo <= chunk && chunk + AlignUp(size, MIN_CHUNK_SIZE) <= hi
      requires Range(chunk, chunk + AlignUp(size, MIN_CHUNK_SIZE)) !! Free()
      modifies Footprint()
      ensures Valid() && account == old(account) && lo == old(lo) && hi == old(hi)
      ensures Free() == old(Free()) + Range(chunk, chunk + AlignUp(size, MIN_CHUNK_SIZE))
    {
      hide AlignUp, FreeBytes, Payload, Range, Represents, BanksAgree;
      AlignedUp(size);
      var n := AlignUp(size, MIN_CHUNK_SIZE);
      var next, prev;
      ghost var i;
      next, prev, i := FindBehind(chunk);
      GiveAccounted(chunk, n, next, prev, i);
    }

    /** Puts a block of whole cells back and accounts for it. */
    method GiveAccounted(chunk: int, n: int, next: int, prev: int, ghost i: nat)
      requires Valid() && lo <= chunk && chunk + n <= hi && ChunkOk(Chunk(chunk, n), hi) && Range(chunk, chunk + n) !! Free()
      requires At(next, i) && (i < |chunks| ==> chunk <= chunks[i].addr)
      requires prev == (if i == 0 then 0 else chunks[i - 1].addr) && (0 < i ==> chunks[i - 1].addr < chunk)
      modifies Footprint()
      ensures Valid() && account == old(account) && lo == old(lo) && hi == old(hi)
      ensures Free() == old(Free()) + Range(chunk, chunk + n)
    {
      hide FreeBytes, Payload, Range, NewPayload, Regained, Represents, Accounting.Agrees, Accounting.InBanks;
      ghost var payload, b := Payload(chunks, hi), Chunk(chunk, n);
      FoundBehind(next, prev, i, b);
      var touchesNext := chunk + n == next;
      var touchesPrevious := prev != 0 && prev + memory[prev / 8].size == chunk;
      Give(chunk, n, next, prev, i);
      AccountGive(chunk, n, touchesPrevious, touchesNext, payload);
    }

    // ----- Aligned allocation

    /**
     * `pos_alloc_align`: for a power of two of at least a header's size, the block is aligned and
     * exactly its bytes leave the free set; what was allocated in front of and behind it returns.
     */
    method PosAllocAlign(size: int, align: int) returns (result: int)
      requires Valid() && 0 <= size
      requires align < 8 ==> size <= INT_MAX - 7 && (0 < size || account == null)
      requires 8 <= align ==> IsPow2(align) && size % 8 == 0 && size + align + 2 * 8 <= INT_MAX - 7
      modifies Footprint()
      ensures Valid() && account == old(account) && lo == old(lo) && hi == old(hi)
      ensures var n := AlignUp(size, MIN_CHUNK_SIZE);
              result != 0 ==> Range(result, result + n) <= old(Free()) && Free() == old(Free()) - Range(result, result + n)
      ensures result % 8 == 0 && (8 <= align && result != 0 ==> result % align == 0)
      ensures var needed := if align < 8 then AlignUp(size, MIN_CHUNK_SIZE) else size + align + 16;
              if result == 0 then chunks == old(chunks) && forall k :: 0 <= k < |chunks| ==> chunks[k].size < needed
              else exists k :: 0 <= k < |old(chunks)| && needed <= old(chunks)[k].size
      ensures align < 8 && 0 < size ==>
                var n := AlignUp(size, MIN_CHUNK_SIZE);
                if result == 0 then NoRoom(old(Free()), n) else LowestRoom(old(Free()), n, result)
      ensures 8 <= align ==>
                if result == 0 then NoRoom(old(Free()), size + align + 16)
                else AlignedRoom(old(Free()), size + align + 16, align, result)
    {
      hide AlignUp, IsPow2, FreeBytes, Range, Represents, NoRoom, LowestRoom, Accounting.Agrees, Accounting.InBanks;
      ghost var i;
      if align < 8 {
        result, i := PosAlloc(size);
        return;
      }
      var sizeAlign := size + align + 8 * 2;
      ghost var before := Free();
      AlignedPow2(size, align);
      result, i := PosAlloc(sizeAlign);
      if result == 0 {
        return;
      }
      BlockInRegion(before, result, sizeAlign);
      AlignUpFacts(result, align);
      AlignedAlready(size);
      var resultAlign := AlignUp(result, align);
      KeepMiddle(result, resultAlign, size, align, sizeAlign, before);
      result := resultAlign;
    }

    /** The end of `pos_alloc_align`: the room in front of the aligned block and behind it is freed. */
    method KeepMiddle(start: int, aligned: int, size: int, align: int, sizeAlign: int, ghost before: set<int>)
      requires Valid() && lo <= start <= aligned < start + align && start + sizeAlign <= hi
      requires start % 8 == aligned % 8 == size % 8 == align % 8 == 0
      requires 0 <= size && 8 <= align && sizeAlign == size + align + 16 <= INT_MAX - 7
      requires Range(start, start + sizeAlign) <= before && Free() == After(before, Range(start, start + sizeAlign), -1)
      modifies Footprint()
      ensures Valid() && account == old(account) && lo == old(lo) && hi == old(hi)
      ensures Range(aligned, aligned + size) <= before && Free() == After(before, Range(aligned, aligned + size), -1)
    {
      hide Valid, FreeBytes, Range, After, Apart;
      var resultAlign := aligned;
      var headerSize := resultAlign - start;
      CutOut(before, start, aligned, size, start + sizeAlign);
      if headerSize != 0 {
        // never taken: both addresses are multiples of 8
        if resultAlign - start < 8 {
          resultAlign := resultAlign + align;
        }
        FreeRange(start, headerSize);
      }
      FreeRange(resultAlign + size, sizeAlign - headerSize - size);
    }

    /** `pos_free` of a block whose size is a multiple of 8. */
    method FreeRange(chunk: int, size: int)
      requires Valid() && 0 < size <= INT_MAX - 7 && chunk % 8 == 0 && size % 8 == 0
      requires lo <= chunk && chunk + size <= hi && Apart(Range(chunk, chunk + size), Free())
      modifies Footprint()
      ensures Valid() && account == old(account) && lo == old(lo) && hi == old(hi)
      ensures Free() == After(old(Free()), Range(chunk, chunk + size), 1)
    {
      AlignedAlready(size);
      hide Valid, FreeBytes, AlignUp, Range;
      PosFree(chunk, size);
    }

    lemma BlockInRegion(before: set<int>, block: int, n: int)
      requires Valid() && 0 < n && Range(block, block + n) <= before
      requires forall a :: a in before ==> lo <= a < hi
      ensures lo <= block && block + n <= hi
    {
      assert block in Range(block, block + n) && block + n - 1 in Range(block, block + n);
    }
  }

  lemma FirstHeader(mem: seq<Cell>, start: int, cs: seq<Chunk>, limit: int)
    requires 0 < start && WellFormed(cs, limit) && Linked(mem, start, cs)
    ensures 0 <= start / 8 < |mem| && 8 <= mem[start / 8].size
  {
    assert ChunkOk(cs[0], limit) && HeaderAt(mem, cs, 0);
  }

  /** Some proper list starts at `first`. */
  ghost predicate Representable(mem: seq<Cell>, first: int)
  {
    exists cs, limit :: WellFormed(cs, limit) && Linked(mem, first, cs)
  }

  /** A first header that says size 0 belongs to no proper list. */
  lemma NoChunk(mem: seq<Cell>, start: int)
    requires 0 < start && start / 8 < |mem| && mem[start / 8].size == 0
    ensures !Representable(mem, start)
  {
    if Representable(mem, start) {
      var cs, limit :| WellFormed(cs, limit) && Linked(mem, start, cs);
      FirstHeader(mem, start, cs, limit);
    }
  }

  ghost predicate IsPow2(n: int)
  {
    exists k: nat :: n == Pow2(k)
  }

  lemma AlignedAlready(n: int)
    requires n % 8 == 0
    ensures AlignUp(n, MIN_CHUNK_SIZE) == n
  {
  }

  lemma {:induction false} Pow2IsMultiple(k: nat)
    ensures if k < 3 then Pow2(k) == [1, 2, 4][k] else Pow2(k) % 8 == 0
  {
    if 0 < k {
      Pow2IsMultiple(k - 1);
    }
  }

  lemma AlignedPow2(size: int, align: int)
    requires 8 <= align && IsPow2(align) && size % 8 == 0
    ensures align % 8 == 0 && AlignUp(size + align + 16, MIN_CHUNK_SIZE) == size + align + 16
  {
    var k: nat :| align == Pow2(k);
    Pow2IsMultiple(k);
  }

  /** Rounding an address up to a multiple of `align` keeps the alignment to 8. */
  lemma AlignUpFacts(n: int, align: int)
    requires 0 < n && n % 8 == 0 && 8 <= align && align % 8 == 0
    ensures n <= AlignUp(n, align) < n + align
    ensures AlignUp(n, align) % align == 0 && AlignUp(n, align) % 8 == 0
  {
    var q, m := (n + align - 1) / align, align / 8;
    assert n + align - 1 == q * align + (n + align - 1) % align;
    assert align == 8 * m;
    assert q * align == 8 * (q * m);
    NoRemainder(q, align);
  }

  /**
   * Why an aligned block's size is a multiple of 8: otherwise the tail that is freed behind it starts inside the last
   * cell of the rounded block, at an address that is no cell's.
   */
  lemma UnroundedTailOverlaps(aligned: int, size: int, tail: int)
    requires aligned % 8 == 0 && 0 < size && 8 <= tail
    ensures (aligned + size) % 8 == 0 <==> size % 8 == 0
    ensures Range(aligned, aligned + AlignUp(size, MIN_CHUNK_SIZE)) !! Range(aligned + size, aligned + size + tail) <==> size % 8 == 0
  {
    hide AlignUp, Range;
    AlignedUp(size);
    if size % 8 == 0 {
      AlignedAlready(size);
    } else {
      assert aligned + size in Range(aligned, aligned + AlignUp(size, MIN_CHUNK_SIZE));
      assert aligned + size in Range(aligned + size, aligned + size + tail);
    }
  }

  /** Taking a large block and returning its two ends takes the middle. */
  lemma CutOut(before: set<int>, start: int, from: int, size: int, end: int)
    requires start <= from && 0 <= size && from + size <= end
    requires Range(start, end) <= before
    ensures var taken := After(before, Range(start, end), -1);
            var headBack := After(taken, Range(start, from), 1);
            && Apart(Range(start, from), taken) && Apart(Range(from + size, end), headBack)
            && After(headBack, Range(from + size, end), 1) == After(before, Range(from, from + size), -1)
            && (start == from ==> headBack == taken)
    ensures Range(from, from + size) <= before
  {
    hide Range;
    assert Range(from, from + size) <= Range(start, end);
  }

  /** The bytes that become payload when a block that touches the given neighbours is freed. */
  function Regained(chunk: int, n: int, touchesPrevious: bool, touchesNext: bool): set<int>
  {
    Range(if touchesPrevious then chunk else chunk + 8, chunk + n)
    + (if touchesNext then Range(chunk + n, chunk + n + 8) else {})
  }

  lemma RegainedIsNewPayload(cs: seq<Chunk>, i: nat, b: Chunk)
    requires i <= |cs|
    ensures NewPayload(cs, i, b) == Regained(b.addr, b.size, TouchesPrevious(cs, i, b), TouchesNext(cs, i, b))
  {
    hide Range;
  }

  ghost predicate Apart(s: set<int>, t: set<int>)
  {
    s !! t
  }

  lemma GainFacts(payload: set<int>, chunk: int, n: int, touchesPrevious: bool, touchesNext: bool)
    requires Apart(Regained(chunk, n, touchesPrevious, touchesNext), payload)
    ensures var header := if touchesNext then Range(chunk + n, chunk + n + 8) else {};
            var block := Range(if touchesPrevious then chunk else chunk + 8, chunk + n);
            && Apart(header, payload) && Apart(block, After(payload, header, 1))
            && After(After(payload, header, 1), block, 1) == After(payload, Regained(chunk, n, touchesPrevious, touchesNext), 1)
            && (!touchesNext ==> After(payload, header, 1) == payload)
  {
    hide Range;
    var header := if touchesNext then Range(chunk + n, chunk + n + 8) else {};
    assert header <= Regained(chunk, n, touchesPrevious, touchesNext);
  }
}
