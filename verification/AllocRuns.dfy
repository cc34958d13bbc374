// Whole runs of the allocator, seen through the contracts of Alloc: the free set and the
// blocks that clients hold.
module AllocRuns {
  import opened FreeList

  /** The free bytes and the live blocks, oldest first. */
  datatype Heap = Heap(free: set<int>, live: seq<Chunk>)

  /** A successful allocation of `block`, the release of the `k`-th live block, or a request that is refused. */
  datatype Op = Alloc(block: Chunk) | Free(k: nat) | Refused

  function Bytes(b: Chunk): set<int>
  {
    Range(b.addr, b.End())
  }

  function Without(s: seq<Chunk>, k: nat): seq<Chunk>
    requires k < |s|
  {
    s[..k] + s[k + 1..]
  }

  /** What `PosAlloc`, `PosAllocAlign` and `PosFree` do to the free set. */
  ghost predicate Step(h: Heap, op: Op, h': Heap)
  {
    match op
    case Alloc(b) => 0 < b.size && Bytes(b) <= h.free && h' == Heap(h.free - Bytes(b), h.live + [b])
    case Free(k) => k < |h.live| && h' == Heap(h.free + Bytes(h.live[k]), Without(h.live, k))
    case Refused => h' == h
  }

  /** A run from the heap that `PosAllocInit` leaves. */
  ghost predicate Run(lo: int, hi: int, hs: seq<Heap>, ops: seq<Op>)
  {
    && |hs| == |ops| + 1 && hs[0] == Heap(Range(lo, hi), [])
    && forall t :: 0 <= t < |ops| ==> Step(hs[t], ops[t], hs[t + 1])
  }

  ghost predicate Apart(live: seq<Chunk>)
  {
    forall i, j :: 0 <= i < j < |live| ==> Bytes(live[i]) !! Bytes(live[j])
  }

  ghost predicate ApartFrom(live: seq<Chunk>, free: set<int>)
  {
    forall i :: 0 <= i < |live| ==> 0 < live[i].size && Bytes(live[i]) !! free
  }

  ghost predicate Held(live: seq<Chunk>, a: int)
  {
    exists i :: 0 <= i < |live| && a in Bytes(live[i])
  }

  ghost predicate Covering(lo: int, hi: int, h: Heap)
  {
    forall a :: lo <= a < hi <==> a in h.free || Held(h.live, a)
  }

  /** Every managed byte is free or in exactly one live block. */
  ghost predicate Partition(lo: int, hi: int, h: Heap)
  {
    && Apart(h.live) && ApartFrom(h.live, h.free) && Covering(lo, hi, h)
    && |h.free| + TotalSize(h.live) == if lo < hi then hi - lo else 0
  }

  lemma {:induction false} TotalSizeConcat(s: seq<Chunk>, t: seq<Chunk>)
    ensures TotalSize(s + t) == TotalSize(s) + TotalSize(t)
  {
    if s == [] {
      assert s + t == t;
    } else {
      TotalSizeConcat(s[1..], t);
      assert (s + t)[1..] == s[1..] + t;
    }
  }

  lemma TotalSizeWithout(s: seq<Chunk>, k: nat)
    requires k < |s|
    ensures TotalSize(Without(s, k)) == TotalSize(s) - s[k].size
  {
    TotalSizeConcat(s[..k], s[k + 1..]);
    TotalSizeConcat(s[..k], s[k..]);
    assert s[..k] + s[k..] == s;
  }

  lemma CountMinus(s: set<int>, t: set<int>)
    requires t <= s
    ensures |s - t| == |s| - |t|
  {
    assert s == (s - t) + t;
  }

  lemma {:induction false} AllocApart(h: Heap, b: Chunk)
    requires Apart(h.live) && ApartFrom(h.live, h.free) && 0 < b.size && Bytes(b) <= h.free
    ensures Apart(h.live + [b]) && ApartFrom(h.live + [b], h.free - Bytes(b))
  {
    hide Range, Bytes;
  }

  lemma {:induction false} AllocCovering(lo: int, hi: int, h: Heap, b: Chunk)
    requires Covering(lo, hi, h) && Bytes(b) <= h.free
    ensures Covering(lo, hi, Heap(h.free - Bytes(b), h.live + [b]))
  {
    hide Range, Bytes;
    forall a
      ensures Held(h.live + [b], a) <==> Held(h.live, a) || a in Bytes(b)
    {
      HeldAppend(h.live, b, a);
    }
  }

  lemma HeldAppend(live: seq<Chunk>, b: Chunk, a: int)
    ensures Held(live + [b], a) <==> Held(live, a) || a in Bytes(b)
  {
    hide Range, Bytes;
    assert (live + [b])[|live|] == b;
    assert forall i :: 0 <= i < |live| ==> (live + [b])[i] == live[i];
  }

  lemma HeldWithout(live: seq<Chunk>, k: nat, a: int)
    requires k < |live|
    ensures Held(live, a) <==> Held(Without(live, k), a) || a in Bytes(live[k])
  {
    hide Range, Bytes;
    assert live == live[..k] + [live[k]] + live[k + 1..];
    if Held(live, a) {
      var i :| 0 <= i < |live| && a in Bytes(live[i]);
      assert i < k ==> Without(live, k)[i] == live[i];
      assert k < i ==> Without(live, k)[i - 1] == live[i];
    }
  }

  lemma {:induction false} AllocKeepsPartition(lo: int, hi: int, h: Heap, b: Chunk)
    requires Partition(lo, hi, h) && 0 < b.size && Bytes(b) <= h.free
    ensures Partition(lo, hi, Heap(h.free - Bytes(b), h.live + [b]))
  {
    hide Apart, ApartFrom, Covering;
    AllocApart(h, b);
    AllocCovering(lo, hi, h, b);
    CountMinus(h.free, Bytes(b));
    TotalSizeConcat(h.live, [b]);
  }

  lemma {:induction false} FreeApart(h: Heap, k: nat)
    requires Apart(h.live) && ApartFrom(h.live, h.free) && k < |h.live|
    ensures Apart(Without(h.live, k)) && ApartFrom(Without(h.live, k), h.free + Bytes(h.live[k]))
  {
    hide Range, Bytes;
    var live := Without(h.live, k);
    assert forall i :: 0 <= i < |live| ==> live[i] == if i < k then h.live[i] else h.live[i + 1];
  }

  lemma {:induction false} FreeCovering(lo: int, hi: int, h: Heap, k: nat)
    requires Covering(lo, hi, h) && k < |h.live|
    ensures Covering(lo, hi, Heap(h.free + Bytes(h.live[k]), Without(h.live, k)))
  {
    hide Range, Bytes, Held, Without;
    forall a
      ensures Held(h.live, a) <==> Held(Without(h.live, k), a) || a in Bytes(h.live[k])
    {
      HeldWithout(h.live, k, a);
    }
  }

  lemma {:induction false} FreeKeepsPartition(lo: int, hi: int, h: Heap, k: nat)
    requires Partition(lo, hi, h) && k < |h.live|
    ensures Partition(lo, hi, Heap(h.free + Bytes(h.live[k]), Without(h.live, k)))
  {
    FreedBytes(h, k);
    hide Apart, ApartFrom, Covering, Without, Range;
    FreeApart(h, k);
    FreeCovering(lo, hi, h, k);
    DisjointCount(h.free, Bytes(h.live[k]));
    TotalSizeWithout(h.live, k);
  }

  lemma FreedBytes(h: Heap, k: nat)
    requires ApartFrom(h.live, h.free) && k < |h.live|
    ensures h.free !! Bytes(h.live[k]) && |Bytes(h.live[k])| == h.live[k].size
  {
    hide Range;
  }

  lemma InitialPartition(lo: int, hi: int)
    ensures Partition(lo, hi, Heap(Range(lo, hi), []))
  {
    hide Range;
  }

  /** In every run, at every moment, each managed byte is free or in exactly one live block. */
  lemma {:induction false} RunKeepsPartition(lo: int, hi: int, hs: seq<Heap>, ops: seq<Op>, t: nat)
    requires Run(lo, hi, hs, ops) && t < |hs|
    ensures Partition(lo, hi, hs[t])
  {
    hide Partition, Without;
    if t == 0 {
      InitialPartition(lo, hi);
    } else {
      RunKeepsPartition(lo, hi, hs, ops, t - 1);
      assert Step(hs[t - 1], ops[t - 1], hs[t - 1 + 1]);
      match ops[t - 1]
      case Alloc(b) => AllocKeepsPartition(lo, hi, hs[t - 1], b);
      case Free(k) => FreeKeepsPartition(lo, hi, hs[t - 1], k);
      case Refused =>
    }
  }

  /** A newly allocated block overlaps no live block. */
  lemma NewBlockIsApart(lo: int, hi: int, hs: seq<Heap>, ops: seq<Op>, t: nat, i: nat)
    requires Run(lo, hi, hs, ops) && t < |ops| && ops[t].Alloc? && i < |hs[t].live|
    ensures Bytes(ops[t].block) !! Bytes(hs[t].live[i])
  {
    RunKeepsPartition(lo, hi, hs, ops, t);
    assert Step(hs[t], ops[t], hs[t + 1]);
  }

  /**
   * Whatever the order of the releases, once no block is live the list is again the single
   * chunk that `PosAllocInit` made.
   */
  lemma AllFreedRestoresInitialChunk(lo: int, hi: int, hs: seq<Heap>, ops: seq<Op>, t: nat, cs: seq<Chunk>)
    requires Run(lo, hi, hs, ops) && t < |hs| && hs[t].live == []
    requires ChunkOk(Chunk(lo, hi - lo), hi)
    requires WellFormed(cs, hi) && FreeBytes(cs, hi) == hs[t].free
    ensures cs == [Chunk(lo, hi - lo)]
  {
    hide Range, FreeBytes;
    RunKeepsPartition(lo, hi, hs, ops, t);
    var one := Chunk(lo, hi - lo);
    OneChunkBytes(one, hi);
    assert hs[t].free == Range(lo, hi);
    Canonical(cs, [one], hi);
  }

  lemma OneChunkBytes(c: Chunk, limit: int)
    requires ChunkOk(c, limit)
    ensures WellFormed([c], limit) && FreeBytes([c], limit) == Range(c.addr, c.End())
  {
    hide Range;
    forall a
      ensures Covers([c], a) <==> c.addr <= a < c.End()
    {
      Single(c, a);
    }
  }

  /** Free bytes plus live sizes is the same number at every moment of every run. */
  lemma Conservation(lo: int, hi: int, hs: seq<Heap>, ops: seq<Op>, t: nat)
    requires Run(lo, hi, hs, ops) && t < |hs|
    ensures |hs[t].free| + TotalSize(hs[t].live) == |hs[0].free|
  {
    RunKeepsPartition(lo, hi, hs, ops, t);
  }
}
