// The abstract state of the allocator in kernel/alloc.c: a list of free chunks, the set of
// bytes it stands for, and why the second determines the first.
module FreeList {

  /** Size of a chunk header and granularity of every chunk. */
  const MIN_CHUNK_SIZE := 8

  datatype Chunk = Chunk(addr: int, size: int)
  {
    function End(): int { addr + size }
  }

  function AlignUp(n: int, size: int): int
    requires 0 < size
  {
    (n + size - 1) / size * size
  }

  function AlignDown(n: int, size: int): int
    requires 0 < size
  {
    n / size * size
  }

  /** The addresses from `lo` up to but not including `hi`. */
  function Range(lo: int, hi: int): (r: set<int>)
    ensures forall a :: a in r <==> lo <= a < hi
    ensures |r| == if lo < hi then hi - lo else 0
    decreases hi - lo
  {
    if lo < hi then {lo} + Range(lo + 1, hi) else {}
  }

  /** Inside memory, aligned, not empty; address 0 is the null pointer. */
  predicate ChunkOk(c: Chunk, limit: int)
  {
    0 < c.addr && c.addr % 8 == 0 && 8 <= c.size && c.size % 8 == 0 && c.End() <= limit
  }

  /** Chunks in address order, disjoint, and never adjacent. */
  ghost predicate WellFormed(cs: seq<Chunk>, limit: int)
  {
    && (forall i :: 0 <= i < |cs| ==> ChunkOk(cs[i], limit))
    && (forall i, j :: 0 <= i < j < |cs| ==> cs[i].End() < cs[j].addr)
  }

  ghost predicate Covers(cs: seq<Chunk>, a: int)
  {
    exists i :: 0 <= i < |cs| && cs[i].addr <= a < cs[i].End()
  }

  /** The bytes of all free chunks, headers included. */
  ghost function FreeBytes(cs: seq<Chunk>, limit: int): set<int>
  {
    set a | 0 <= a < limit && Covers(cs, a)
  }

  ghost predicate InPayload(cs: seq<Chunk>, a: int)
  {
    exists i :: 0 <= i < |cs| && cs[i].addr + 8 <= a < cs[i].End()
  }

  /** The free bytes that are not part of a chunk header. */
  ghost function Payload(cs: seq<Chunk>, limit: int): set<int>
  {
    set a | 0 <= a < limit && InPayload(cs, a)
  }

  /** `cs` with the chunks `lo..hi` replaced by `c`. */
  function Splice(cs: seq<Chunk>, lo: nat, hi: nat, mid: seq<Chunk>): seq<Chunk>
    requires lo <= hi <= |cs|
  {
    cs[..lo] + mid + cs[hi..]
  }

  lemma SpliceCovers(cs: seq<Chunk>, lo: nat, hi: nat, mid: seq<Chunk>, a: int)
    requires lo <= hi <= |cs|
    ensures Covers(Splice(cs, lo, hi, mid), a) <==> Covers(cs[..lo], a) || Covers(mid, a) || Covers(cs[hi..], a)
    ensures Covers(cs, a) <==> Covers(cs[..lo], a) || Covers(cs[lo..hi], a) || Covers(cs[hi..], a)
    ensures InPayload(Splice(cs, lo, hi, mid), a) <==> InPayload(cs[..lo], a) || InPayload(mid, a) || InPayload(cs[hi..], a)
    ensures InPayload(cs, a) <==> InPayload(cs[..lo], a) || InPayload(cs[lo..hi], a) || InPayload(cs[hi..], a)
  {
    ConcatCovers(cs[..lo] + mid, cs[hi..], a);
    ConcatCovers(cs[..lo], mid, a);
    ConcatCovers(cs[..lo], cs[lo..], a);
    ConcatCovers(cs[lo..hi], cs[hi..], a);
    assert cs[..lo] + cs[lo..] == cs;
    assert cs[lo..hi] + cs[hi..] == cs[lo..];
  }

  lemma ConcatCovers(s: seq<Chunk>, t: seq<Chunk>, a: int)
    ensures Covers(s + t, a) <==> Covers(s, a) || Covers(t, a)
    ensures InPayload(s + t, a) <==> InPayload(s, a) || InPayload(t, a)
  {
    forall i | 0 <= i < |t|
      ensures t[i] == (s + t)[|s| + i]
    {
    }
    forall i | 0 <= i < |s|
      ensures s[i] == (s + t)[i]
    {
    }
  }

  lemma SpliceWellFormed(cs: seq<Chunk>, lo: nat, hi: nat, c: Chunk, limit: int)
    requires WellFormed(cs, limit) && lo <= hi <= |cs| && ChunkOk(c, limit)
    requires 0 < lo ==> cs[lo - 1].End() < c.addr
    requires hi < |cs| ==> c.End() < cs[hi].addr
    ensures WellFormed(Splice(cs, lo, hi, [c]), limit)
  {
    hide ChunkOk, Splice;
    var t := Splice(cs, lo, hi, [c]);
    forall i | 0 <= i < |t|
      ensures ChunkOk(t[i], limit)
    {
      SpliceElement(cs, lo, hi, c, limit, i);
    }
    forall i, j | 0 <= i < j < |t|
      ensures t[i].End() < t[j].addr
    {
      SpliceElement(cs, lo, hi, c, limit, i);
      SpliceElement(cs, lo, hi, c, limit, j);
    }
  }

  lemma SpliceElement(cs: seq<Chunk>, lo: nat, hi: nat, c: Chunk, limit: int, i: nat)
    requires WellFormed(cs, limit) && lo <= hi <= |cs| && ChunkOk(c, limit)
    requires 0 < lo ==> cs[lo - 1].End() < c.addr
    requires hi < |cs| ==> c.End() < cs[hi].addr
    ensures |Splice(cs, lo, hi, [c])| == lo + 1 + |cs| - hi && c.addr < c.End()
    ensures i < lo + 1 + |cs| - hi ==>
              var t := Splice(cs, lo, hi, [c]);
              && t[i] == (if i < lo then cs[i] else if i == lo then c else cs[i - (lo + 1) + hi])
              && ChunkOk(t[i], limit) && (i < lo ==> t[i].End() < c.addr) && (lo < i ==> c.End() < t[i].addr)
  {
    if lo < i && i < lo + 1 + |cs| - hi {
      var k := i - (lo + 1) + hi;
      assert ChunkOk(cs[hi], limit) && (hi < k ==> cs[hi].End() < cs[k].addr);
    } else if i < lo {
      assert ChunkOk(cs[lo - 1], limit) && (i < lo - 1 ==> cs[i].End() < cs[lo - 1].addr);
    }
  }

  lemma RemoveWellFormed(cs: seq<Chunk>, i: nat, limit: int)
    requires WellFormed(cs, limit) && i < |cs|
    ensures WellFormed(Splice(cs, i, i + 1, []), limit)
  {
    var t := Splice(cs, i, i + 1, []);
    assert forall k :: 0 <= k < |t| ==> t[k] == if k < i then cs[k] else cs[k + 1];
  }

  // ----- Taking the first bytes of a chunk

  /** The list after the first `n` bytes of chunk `i` are taken. */
  ghost function Taken(cs: seq<Chunk>, i: nat, n: int): seq<Chunk>
    requires i < |cs|
  {
    Splice(cs, i, i + 1, if n == cs[i].size then [] else [Chunk(cs[i].addr + n, cs[i].size - n)])
  }

  lemma TakenIsWellFormed(cs: seq<Chunk>, i: nat, n: int, limit: int)
    requires WellFormed(cs, limit) && i < |cs|
    requires 0 < n <= cs[i].size && n % 8 == 0
    ensures WellFormed(Taken(cs, i, n), limit)
  {
    hide Splice;
    if n == cs[i].size {
      RemoveWellFormed(cs, i, limit);
    } else {
      var c := Chunk(cs[i].addr + n, cs[i].size - n);
      assert ChunkOk(cs[i], limit) && ChunkOk(c, limit);
      assert 0 < i ==> cs[i - 1].End() < c.addr;
      assert i + 1 < |cs| ==> c.End() < cs[i + 1].addr;
      SpliceWellFormed(cs, i, i + 1, c, limit);
      assert Taken(cs, i, n) == Splice(cs, i, i + 1, [c]);
    }
  }

  /** The chunks left of `lo` and right of `hi` lie on either side of the chunks between them. */
  lemma OthersApart(cs: seq<Chunk>, lo: nat, hi: nat, limit: int, a: int)
    requires WellFormed(cs, limit) && lo <= hi <= |cs|
    ensures Covers(cs[..lo], a) ==> 0 < lo && a < cs[lo - 1].End()
    ensures Covers(cs[hi..], a) ==> hi < |cs| && cs[hi].addr <= a
    ensures Covers(cs, a) ==> 0 < a < limit
  {
    if Covers(cs[..lo], a) {
      var k :| 0 <= k < lo && cs[..lo][k].addr <= a < cs[..lo][k].End();
      assert k < lo - 1 ==> cs[k].End() < cs[lo - 1].addr;
    }
    if Covers(cs[hi..], a) {
      var k :| 0 <= k < |cs| - hi && cs[hi..][k].addr <= a < cs[hi..][k].End();
      assert 0 < k ==> cs[hi].End() < cs[hi + k].addr;
    }
  }

  /** `n` consecutive bytes from `p` on are free. */
  ghost predicate Room(free: set<int>, n: int, p: int)
  {
    Range(p, p + n) <= free
  }

  /** `p` is the lowest address with that room. */
  ghost predicate LowestRoom(free: set<int>, n: int, p: int)
  {
    Room(free, n, p) && forall q :: Room(free, n, q) ==> p <= q
  }

  ghost predicate NoRoom(free: set<int>, n: int)
  {
    forall p :: !Room(free, n, p)
  }

  /** Free bytes in a row lie in one chunk, because chunks are never adjacent. */
  lemma RoomIsInOneChunk(cs: seq<Chunk>, limit: int, n: int, p: int) returns (k: nat)
    requires WellFormed(cs, limit) && 0 < n && Room(FreeBytes(cs, limit), n, p)
    ensures k < |cs| && cs[k].addr <= p && p + n <= cs[k].End()
  {
    assert p in Range(p, p + n);
    k :| 0 <= k < |cs| && cs[k].addr <= p < cs[k].End();
    EndIsNotFree(cs, limit, k);
    var end := cs[k].End();
    assert end in Range(p, p + n) <==> p <= end < p + n;
  }

  /** The byte behind a chunk is not free. */
  lemma EndIsNotFree(cs: seq<Chunk>, limit: int, k: nat)
    requires WellFormed(cs, limit) && k < |cs|
    ensures cs[k].End() !in FreeBytes(cs, limit)
  {
    forall j | 0 <= j < |cs|
      ensures !(cs[j].addr <= cs[k].End() < cs[j].End())
    {
      assert k < j ==> cs[k].End() < cs[j].addr;
      assert j < k ==> cs[j].End() < cs[k].addr;
      assert ChunkOk(cs[k], limit);
    }
  }

  lemma ChunkIsRoom(cs: seq<Chunk>, limit: int, n: int, k: nat)
    requires WellFormed(cs, limit) && k < |cs| && n <= cs[k].size
    ensures Room(FreeBytes(cs, limit), n, cs[k].addr)
  {
    assert ChunkOk(cs[k], limit);
    forall a | a in Range(cs[k].addr, cs[k].addr + n)
      ensures a in FreeBytes(cs, limit)
    {
      assert Covers(cs, a);
    }
  }

  lemma PayloadIsCovered(cs: seq<Chunk>, a: int)
    ensures InPayload(cs, a) ==> Covers(cs, a)
  {
  }

  lemma Single(c: Chunk, a: int)
    ensures Covers([c], a) <==> c.addr <= a < c.End()
    ensures InPayload([c], a) <==> c.addr + 8 <= a < c.End()
    ensures !Covers([], a) && !InPayload([], a)
  {
    assert [c][0] == c;
  }

  lemma TakenAt(cs: seq<Chunk>, i: nat, n: int, limit: int, a: int)
    requires WellFormed(cs, limit) && i < |cs|
    requires 0 < n <= cs[i].size && n % 8 == 0
    ensures Covers(Taken(cs, i, n), a) <==> Covers(cs, a) && !(cs[i].addr <= a < cs[i].addr + n)
    ensures InPayload(Taken(cs, i, n), a) <==>
      InPayload(cs, a) && !(cs[i].addr + 8 <= a < cs[i].addr + n) && !(n < cs[i].size && cs[i].addr + n <= a < cs[i].addr + n + 8)
  {
    hide Covers, InPayload, Splice;
    var c := Chunk(cs[i].addr + n, cs[i].size - n);
    var mid := if n == cs[i].size then [] else [c];
    SpliceCovers(cs, i, i + 1, mid, a);
    OthersApart(cs, i, i + 1, limit, a);
    PayloadIsCovered(cs[..i], a);
    PayloadIsCovered(cs[i + 1..], a);
    Single(c, a);
    Single(cs[i], a);
    assert cs[i..i + 1] == [cs[i]];
    assert 0 < i ==> cs[i - 1].End() < cs[i].addr;
    assert i + 1 < |cs| ==> cs[i].End() < cs[i + 1].addr;
  }

  /** Taking removes exactly the bytes taken from the free set. */
  lemma TakenRemovesExactly(cs: seq<Chunk>, i: nat, n: int, limit: int)
    requires WellFormed(cs, limit) && i < |cs|
    requires 0 < n <= cs[i].size && n % 8 == 0
    ensures Range(cs[i].addr, cs[i].addr + n) <= FreeBytes(cs, limit)
    ensures FreeBytes(Taken(cs, i, n), limit) == FreeBytes(cs, limit) - Range(cs[i].addr, cs[i].addr + n)
  {
    assert ChunkOk(cs[i], limit);
    forall a
      ensures a in FreeBytes(Taken(cs, i, n), limit) <==> a in FreeBytes(cs, limit) - Range(cs[i].addr, cs[i].addr + n)
    {
      TakenAt(cs, i, n, limit, a);
    }
  }

  /** The bytes `n` into the chunk, where the header of the remainder goes if there is one. */
  ghost function NewHeader(c: Chunk, n: int): set<int>
  {
    if n < c.size then Range(c.addr + n, c.addr + n + 8) else {}
  }

  lemma PayloadWithout(cs: seq<Chunk>, t: seq<Chunk>, gone: set<int>, limit: int)
    requires forall a :: InPayload(t, a) <==> InPayload(cs, a) && a !in gone
    ensures Payload(t, limit) == Payload(cs, limit) - gone
  {
  }

  lemma ChunkPayload(cs: seq<Chunk>, i: nat, limit: int)
    requires WellFormed(cs, limit) && i < |cs|
    ensures Range(cs[i].addr + 8, cs[i].End()) <= Payload(cs, limit)
  {
    var c := cs[i];
    assert ChunkOk(c, limit);
    assert forall a :: c.addr + 8 <= a < c.End() ==> InPayload(cs, a);
  }

  lemma {:induction false} TakenPayloadAt(cs: seq<Chunk>, i: nat, n: int, limit: int, a: int)
    requires WellFormed(cs, limit) && i < |cs|
    requires 0 < n <= cs[i].size && n % 8 == 0
    ensures InPayload(Taken(cs, i, n), a) <==> InPayload(cs, a) && a !in Range(cs[i].addr + 8, cs[i].addr + n) + NewHeader(cs[i], n)
  {
    TakenAt(cs, i, n, limit, a);
  }

  /** The header of the chunk was not payload; the header of the remainder stops being payload. */
  lemma {:induction false} TakenPayload(cs: seq<Chunk>, i: nat, n: int, limit: int)
    requires WellFormed(cs, limit) && i < |cs|
    requires 0 < n <= cs[i].size && n % 8 == 0
    ensures Payload(Taken(cs, i, n), limit) == Payload(cs, limit) - (Range(cs[i].addr + 8, cs[i].addr + n) + NewHeader(cs[i], n))
  {
    var t, gone := Taken(cs, i, n), Range(cs[i].addr + 8, cs[i].addr + n) + NewHeader(cs[i], n);
    forall a
      ensures InPayload(t, a) <==> InPayload(cs, a) && a !in gone
    {
      TakenPayloadAt(cs, i, n, limit, a);
    }
    PayloadWithout(cs, t, gone, limit);
  }

  // ----- Giving bytes back

  /** Chunk `i` is the first one behind the block, and the block overlaps no chunk. */
  ghost predicate InsertionPoint(cs: seq<Chunk>, i: nat, b: Chunk)
  {
    i <= |cs| && (0 < i ==> cs[i - 1].End() <= b.addr) && (i < |cs| ==> b.End() <= cs[i].addr)
  }

  ghost predicate TouchesPrevious(cs: seq<Chunk>, i: nat, b: Chunk)
    requires i <= |cs|
  {
    0 < i && cs[i - 1].End() == b.addr
  }

  ghost predicate TouchesNext(cs: seq<Chunk>, i: nat, b: Chunk)
    requires i <= |cs|
  {
    i < |cs| && b.End() == cs[i].addr
  }

  /** The block together with the chunks it touches. */
  ghost function Merged(cs: seq<Chunk>, i: nat, b: Chunk): Chunk
    requires i <= |cs|
  {
    var addr := if TouchesPrevious(cs, i, b) then cs[i - 1].addr else b.addr;
    var end := if TouchesNext(cs, i, b) then cs[i].End() else b.End();
    Chunk(addr, end - addr)
  }

  /** The list after block `b` is given back in front of chunk `i`. */
  ghost function Given(cs: seq<Chunk>, i: nat, b: Chunk): seq<Chunk>
    requires i <= |cs|
  {
    Splice(cs, if TouchesPrevious(cs, i, b) then i - 1 else i, if TouchesNext(cs, i, b) then i + 1 else i, [Merged(cs, i, b)])
  }

  lemma MergedOk(cs: seq<Chunk>, i: nat, b: Chunk, limit: int)
    requires WellFormed(cs, limit) && InsertionPoint(cs, i, b) && ChunkOk(b, limit)
    ensures ChunkOk(Merged(cs, i, b), limit)
    ensures Merged(cs, i, b).addr == if TouchesPrevious(cs, i, b) then cs[i - 1].addr else b.addr
    ensures Merged(cs, i, b).End() == if TouchesNext(cs, i, b) then cs[i].End() else b.End()
  {
    assert 0 < i ==> ChunkOk(cs[i - 1], limit);
    assert i < |cs| ==> ChunkOk(cs[i], limit);
  }

  lemma {:induction false} GivenIsWellFormed(cs: seq<Chunk>, i: nat, b: Chunk, limit: int)
    requires WellFormed(cs, limit) && InsertionPoint(cs, i, b) && ChunkOk(b, limit)
    ensures WellFormed(Given(cs, i, b), limit)
  {
    hide Splice, ChunkOk, Merged;
    var lo := if TouchesPrevious(cs, i, b) then i - 1 else i;
    var hi := if TouchesNext(cs, i, b) then i + 1 else i;
    var c := Merged(cs, i, b);
    MergedOk(cs, i, b, limit);
    assert 0 < lo ==> cs[lo - 1].End() < c.addr by {
      assert 0 < lo < i ==> cs[lo - 1].End() < cs[lo].addr;
    }
    assert hi < |cs| ==> c.End() < cs[hi].addr by {
      assert i < hi < |cs| ==> cs[i].End() < cs[hi].addr;
    }
    SpliceWellFormed(cs, lo, hi, c, limit);
  }

  /** The bytes that become payload: a header survives only in front of the merged chunk. */
  ghost function NewPayload(cs: seq<Chunk>, i: nat, b: Chunk): set<int>
    requires i <= |cs|
  {
    (if TouchesPrevious(cs, i, b) then Range(b.addr, b.End()) else Range(b.addr + 8, b.End()))
    + (if TouchesNext(cs, i, b) then Range(b.End(), b.End() + 8) else {})
  }

  lemma {:induction false} GivenCovers(cs: seq<Chunk>, i: nat, b: Chunk, limit: int, a: int)
    requires WellFormed(cs, limit) && InsertionPoint(cs, i, b) && ChunkOk(b, limit)
    ensures Covers(Given(cs, i, b), a) <==> Covers(cs, a) || b.addr <= a < b.End()
  {
    hide Covers, InPayload, Splice;
    var lo := if TouchesPrevious(cs, i, b) then i - 1 else i;
    var hi := if TouchesNext(cs, i, b) then i + 1 else i;
    SpliceCovers(cs, lo, hi, [Merged(cs, i, b)], a);
    Single(Merged(cs, i, b), a);
    TouchedChunks(cs, lo, i, hi, a);
    assert 0 < i ==> ChunkOk(cs[i - 1], limit);
    assert i < |cs| ==> ChunkOk(cs[i], limit);
  }

  lemma {:induction false} GivenPayloadAt(cs: seq<Chunk>, i: nat, b: Chunk, limit: int, a: int)
    requires WellFormed(cs, limit) && InsertionPoint(cs, i, b) && ChunkOk(b, limit)
    ensures InPayload(Given(cs, i, b), a) <==> InPayload(cs, a) || a in NewPayload(cs, i, b)
  {
    hide Covers, InPayload, Splice;
    var lo := if TouchesPrevious(cs, i, b) then i - 1 else i;
    var hi := if TouchesNext(cs, i, b) then i + 1 else i;
    SpliceCovers(cs, lo, hi, [Merged(cs, i, b)], a);
    Single(Merged(cs, i, b), a);
    TouchedChunks(cs, lo, i, hi, a);
    assert 0 < i ==> ChunkOk(cs[i - 1], limit);
    assert i < |cs| ==> ChunkOk(cs[i], limit);
  }

  lemma {:induction false} HeaderIsNotPayload(cs: seq<Chunk>, k: nat, limit: int, a: int)
    requires WellFormed(cs, limit) && k < |cs| && cs[k].addr <= a < cs[k].addr + 8
    ensures !InPayload(cs, a)
  {
    assert ChunkOk(cs[k], limit);
    forall j | 0 <= j < |cs|
      ensures !(cs[j].addr + 8 <= a < cs[j].End())
    {
      assert j < k ==> cs[j].End() < cs[k].addr;
      assert k < j ==> cs[k].End() < cs[j].addr;
    }
  }

  lemma {:induction false} NotYetCovered(cs: seq<Chunk>, i: nat, b: Chunk, limit: int, a: int)
    requires WellFormed(cs, limit) && InsertionPoint(cs, i, b) && ChunkOk(b, limit)
    ensures i <= |cs| && (Covers(cs, a) ==> !(b.addr <= a < b.End()))
  {
    hide Covers, InPayload, Splice;
    SpliceCovers(cs, i, i, [], a);
    OthersApart(cs, i, i, limit, a);
    Single(b, a);
    assert cs[i..i] == [];
  }

  lemma {:induction false} NotYetFree(cs: seq<Chunk>, i: nat, b: Chunk, limit: int, a: int)
    requires WellFormed(cs, limit) && InsertionPoint(cs, i, b) && ChunkOk(b, limit)
    ensures Covers(cs, a) ==> !(b.addr <= a < b.End())
    ensures InPayload(cs, a) ==> a !in NewPayload(cs, i, b)
  {
    hide Covers, InPayload, WellFormed, InsertionPoint, ChunkOk;
    NotYetCovered(cs, i, b, limit, a);
    PayloadIsCovered(cs, a);
    if TouchesNext(cs, i, b) && b.End() <= a < b.End() + 8 {
      HeaderIsNotPayload(cs, i, limit, a);
    }
  }

  lemma {:induction false} TouchedChunks(cs: seq<Chunk>, lo: nat, i: nat, hi: nat, a: int)
    requires lo <= i <= hi <= |cs| && i - 1 <= lo && hi <= i + 1
    ensures Covers(cs[lo..hi], a) <==> (lo < i && cs[lo].addr <= a < cs[lo].End()) || (i < hi && cs[i].addr <= a < cs[i].End())
    ensures InPayload(cs[lo..hi], a) <==> (lo < i && cs[lo].addr + 8 <= a < cs[lo].End()) || (i < hi && cs[i].addr + 8 <= a < cs[i].End())
  {
    var t := cs[lo..hi];
    if lo < i {
      assert t[0] == cs[lo];
    }
    if i < hi {
      assert t[i - lo] == cs[i];
    }
  }

  /** Giving back adds exactly the bytes given back to the free set. */
  lemma {:induction false} GivenAddsExactly(cs: seq<Chunk>, i: nat, b: Chunk, limit: int)
    requires WellFormed(cs, limit) && InsertionPoint(cs, i, b) && ChunkOk(b, limit)
    ensures FreeBytes(Given(cs, i, b), limit) == FreeBytes(cs, limit) + Range(b.addr, b.End())
    ensures FreeBytes(cs, limit) !! Range(b.addr, b.End())
  {
    hide Covers, Given;
    forall a
      ensures Covers(Given(cs, i, b), a) <==> Covers(cs, a) || a in Range(b.addr, b.End())
      ensures Covers(cs, a) ==> a !in Range(b.addr, b.End())
    {
      GivenCovers(cs, i, b, limit, a);
      NotYetFree(cs, i, b, limit, a);
    }
  }

  /** Giving back turns exactly `NewPayload` into payload. */
  lemma {:induction false} GivenPayload(cs: seq<Chunk>, i: nat, b: Chunk, limit: int)
    requires WellFormed(cs, limit) && InsertionPoint(cs, i, b) && ChunkOk(b, limit)
    ensures Payload(Given(cs, i, b), limit) == Payload(cs, limit) + NewPayload(cs, i, b)
    ensures Payload(cs, limit) !! NewPayload(cs, i, b)
  {
    hide InPayload, Given;
    assert i < |cs| ==> ChunkOk(cs[i], limit);
    var t, new' := Given(cs, i, b), NewPayload(cs, i, b);
    forall a
      ensures InPayload(t, a) <==> InPayload(cs, a) || a in new'
      ensures InPayload(cs, a) ==> a !in new'
    {
      GivenPayloadAt(cs, i, b, limit, a);
      NotYetFree(cs, i, b, limit, a);
    }
    PayloadWith(cs, t, new', limit);
  }

  lemma PayloadWith(cs: seq<Chunk>, t: seq<Chunk>, new': set<int>, limit: int)
    requires forall a :: InPayload(t, a) <==> InPayload(cs, a) || a in new'
    requires forall a :: a in new' ==> 0 <= a < limit
    ensures Payload(t, limit) == Payload(cs, limit) + new'
  {
  }

  /** The first chunk behind a block outside the free set is where the block belongs. */
  lemma {:induction false} FirstBehindIsInsertionPoint(cs: seq<Chunk>, i: nat, b: Chunk, limit: int)
    requires WellFormed(cs, limit) && ChunkOk(b, limit) && i <= |cs|
    requires 0 < i ==> cs[i - 1].addr < b.addr
    requires i < |cs| ==> b.addr <= cs[i].addr
    requires FreeBytes(cs, limit) !! Range(b.addr, b.End())
    ensures InsertionPoint(cs, i, b)
  {
    assert b.addr in Range(b.addr, b.End());
    if 0 < i {
      assert ChunkOk(cs[i - 1], limit);
      assert cs[i - 1].addr <= b.addr < cs[i - 1].End() ==> Covers(cs, b.addr);
    }
    if i < |cs| {
      assert ChunkOk(cs[i], limit) && Covers(cs, cs[i].addr);
      assert cs[i].addr in FreeBytes(cs, limit);
    }
  }

  // ----- The free set determines the list

  lemma {:induction false} HeadAndTail(cs: seq<Chunk>, limit: int)
    requires WellFormed(cs, limit) && cs != []
    ensures WellFormed(cs[1..], limit)
    ensures FreeBytes(cs, limit) == Range(cs[0].addr, cs[0].End()) + FreeBytes(cs[1..], limit)
    ensures forall a :: a in FreeBytes(cs[1..], limit) ==> cs[0].End() < a
  {
    hide Covers;
    assert ChunkOk(cs[0], limit);
    forall a
      ensures Covers(cs, a) <==> a in Range(cs[0].addr, cs[0].End()) || Covers(cs[1..], a)
      ensures Covers(cs[1..], a) ==> cs[0].End() < a
    {
      ConcatCovers([cs[0]], cs[1..], a);
      Single(cs[0], a);
      assert [cs[0]] + cs[1..] == cs;
      OthersApart(cs, 1, 1, limit, a);
    }
  }

  lemma {:induction false} TailFree(cs: seq<Chunk>, limit: int)
    requires WellFormed(cs, limit) && cs != []
    ensures FreeBytes(cs[1..], limit) == FreeBytes(cs, limit) - Range(cs[0].addr, cs[0].End())
    ensures cs[0].End() !in FreeBytes(cs, limit)
  {
    HeadAndTail(cs, limit);
  }

  lemma {:induction false} HeadNotAfter(cs: seq<Chunk>, ds: seq<Chunk>, limit: int)
    requires WellFormed(cs, limit) && WellFormed(ds, limit) && cs != []
    requires FreeBytes(cs, limit) == FreeBytes(ds, limit)
    ensures ds != [] && ds[0].addr <= cs[0].addr
  {
    HeadAndTail(cs, limit);
    assert ChunkOk(cs[0], limit);
    assert cs[0].addr in FreeBytes(ds, limit);
    assert Covers(ds, cs[0].addr);
    HeadAndTail(ds, limit);
  }

  lemma {:induction false} SameHead(cs: seq<Chunk>, ds: seq<Chunk>, limit: int)
    requires WellFormed(cs, limit) && WellFormed(ds, limit) && cs != []
    requires FreeBytes(cs, limit) == FreeBytes(ds, limit)
    ensures ds != [] && cs[0] == ds[0]
  {
    HeadNotAfter(cs, ds, limit);
    HeadNotAfter(ds, cs, limit);
    TailFree(cs, limit);
    TailFree(ds, limit);
    HeadCovered(cs, limit);
    HeadCovered(ds, limit);
    assert cs[0].End() !in Range(cs[0].addr, ds[0].End());
    assert ds[0].End() !in Range(cs[0].addr, cs[0].End());
  }

  lemma {:induction false} SameTail(cs: seq<Chunk>, ds: seq<Chunk>, limit: int)
    requires WellFormed(cs, limit) && WellFormed(ds, limit) && cs != [] && ds != [] && cs[0] == ds[0]
    requires FreeBytes(cs, limit) == FreeBytes(ds, limit)
    ensures WellFormed(cs[1..], limit) && WellFormed(ds[1..], limit)
    ensures FreeBytes(cs[1..], limit) == FreeBytes(ds[1..], limit)
  {
    HeadAndTail(cs, limit);
    HeadAndTail(ds, limit);
    TailFree(cs, limit);
    TailFree(ds, limit);
  }

  lemma {:induction false} HeadCovered(cs: seq<Chunk>, limit: int)
    requires WellFormed(cs, limit) && cs != []
    ensures Range(cs[0].addr, cs[0].End()) <= FreeBytes(cs, limit)
    ensures cs[0].addr <= cs[0].End()
  {
    HeadAndTail(cs, limit);
    assert ChunkOk(cs[0], limit);
  }

  /** Two well-formed lists with the same free bytes are the same list. */
  lemma {:induction false} Canonical(cs: seq<Chunk>, ds: seq<Chunk>, limit: int)
    requires WellFormed(cs, limit) && WellFormed(ds, limit)
    requires FreeBytes(cs, limit) == FreeBytes(ds, limit)
    ensures cs == ds
    decreases |cs|
  {
    if cs == [] {
      if ds != [] {
        HeadNotAfter(ds, cs, limit);
      }
    } else {
      SameHead(cs, ds, limit);
      SameTail(cs, ds, limit);
      Canonical(cs[1..], ds[1..], limit);
      assert cs == [cs[0]] + cs[1..] && ds == [ds[0]] + ds[1..];
    }
  }

  function TotalSize(cs: seq<Chunk>): int
  {
    if cs == [] then 0 else cs[0].size + TotalSize(cs[1..])
  }

  lemma DisjointCount(s: set<int>, t: set<int>)
    requires s !! t
    ensures |s + t| == |s| + |t|
  {
  }

  lemma {:induction false} HeadDisjoint(cs: seq<Chunk>, limit: int)
    requires WellFormed(cs, limit) && cs != []
    ensures Range(cs[0].addr, cs[0].End()) !! FreeBytes(cs[1..], limit)
    ensures |Range(cs[0].addr, cs[0].End())| == cs[0].size
  {
    hide FreeBytes, Range;
    HeadAndTail(cs, limit);
    assert ChunkOk(cs[0], limit);
  }

  /** The sizes in the headers add up to the number of free bytes. */
  lemma {:induction false} TotalSizeIsFreeCount(cs: seq<Chunk>, limit: int)
    requires WellFormed(cs, limit)
    ensures TotalSize(cs) == |FreeBytes(cs, limit)|
  {
    if cs == [] {
      assert FreeBytes(cs, limit) == {};
    } else {
      hide FreeBytes, Range, WellFormed;
      HeadAndTail(cs, limit);
      TotalSizeIsFreeCount(cs[1..], limit);
      HeadDisjoint(cs, limit);
      DisjointCount(Range(cs[0].addr, cs[0].End()), FreeBytes(cs[1..], limit));
    }
  }
}
