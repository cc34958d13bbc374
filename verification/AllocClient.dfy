// Clients of the allocator: whatever they request, what the allocator does is a run of AllocRuns.
module AllocClient {
  import opened FreeList
  import opened AllocRuns
  import opened A = Alloc

  /** Allocate, allocate aligned, or free the `k`-th block that the client holds. */
  datatype Request = Malloc(size: int) | MallocAligned(size: int, align: int) | Release(k: nat)

  /** What the allocator asks of its clients. */
  ghost predicate Proper(r: Request)
  {
    match r
    case Malloc(size) => 0 < size <= INT_MAX - 7
    case MallocAligned(size, align) => 8 <= align && IsPow2(align) && 0 < size && size % 8 == 0 && size + align + 16 <= INT_MAX - 7
    case Release(_) => true
  }

  /** A block that a client holds, rounded to whole cells. */
  ghost predicate IsBlock(b: Chunk)
  {
    b.addr % 8 == 0 && b.size % 8 == 0 && 0 < b.size
  }

  /** The allocator stands where the run has got to. */
  ghost predicate Follows(a: Allocator, live: seq<Chunk>, hs: seq<Heap>, ops: seq<Op>)
    reads a, a.memory, a.account, if a.account == null then {} else {a.account.pwdCount}
  {
    && a.Valid() && Run(a.lo, a.hi, hs, ops) && hs[|ops|] == Heap(a.Free(), live)
    && forall b :: b in live ==> IsBlock(b)
  }

  lemma RunGrows(lo: int, hi: int, hs: seq<Heap>, ops: seq<Op>, op: Op, h: Heap)
    requires Run(lo, hi, hs, ops) && Step(hs[|ops|], op, h)
    ensures Run(lo, hi, hs + [h], ops + [op])
  {
    hide Step;
    var hs', ops' := hs + [h], ops + [op];
    forall t | 0 <= t < |ops'|
      ensures Step(hs'[t], ops'[t], hs'[t + 1])
    {
      if t < |ops| {
        assert Step(hs[t], ops[t], hs[t + 1]);
      }
    }
  }

  /** A block the client holds is one that it may give back. */
  lemma MayRelease(a: Allocator, live: seq<Chunk>, hs: seq<Heap>, ops: seq<Op>, k: nat)
    requires Follows(a, live, hs, ops) && k < |live|
    ensures IsBlock(live[k]) && a.lo <= live[k].addr && live[k].End() <= a.hi && live[k].size <= INT_MAX - 7
    ensures Range(live[k].addr, live[k].End()) !! a.Free()
  {
    hide Range, FreeBytes, Step, WellFormed;
    RunKeepsPartition(a.lo, a.hi, hs, ops, |ops|);
    var b := live[k];
    assert b in live;
    assert b.addr in Bytes(b) && b.End() - 1 in Bytes(b);
    assert Held(live, b.addr) && Held(live, b.End() - 1);
  }

  /** A granted block extends the run. */
  lemma Granted(a: Allocator, live: seq<Chunk>, hs: seq<Heap>, ops: seq<Op>, b: Chunk)
    requires a.Valid() && Run(a.lo, a.hi, hs, ops) && IsBlock(b) && forall c :: c in live ==> IsBlock(c)
    requires hs[|ops|].live == live && Bytes(b) <= hs[|ops|].free && a.Free() == hs[|ops|].free - Bytes(b)
    ensures Follows(a, live + [b], hs + [Heap(a.Free(), live + [b])], ops + [Op.Alloc(b)])
  {
    hide Range, FreeBytes, a.Valid, Run;
    var h := Heap(a.Free(), live + [b]);
    RunGrows(a.lo, a.hi, hs, ops, Op.Alloc(b), h);
    RunEnds(a.lo, a.hi, hs, ops);
  }

  lemma Released(a: Allocator, live: seq<Chunk>, hs: seq<Heap>, ops: seq<Op>, k: nat)
    requires a.Valid() && Run(a.lo, a.hi, hs, ops) && forall c :: c in live ==> IsBlock(c)
    requires k < |live| && hs[|ops|].live == live && a.Free() == hs[|ops|].free + Bytes(live[k])
    ensures Follows(a, Without(live, k), hs + [Heap(a.Free(), Without(live, k))], ops + [Op.Free(k)])
  {
    hide Range, FreeBytes, a.Valid, Run;
    var h := Heap(a.Free(), Without(live, k));
    RunGrows(a.lo, a.hi, hs, ops, Op.Free(k), h);
    RunEnds(a.lo, a.hi, hs, ops);
  }

  lemma RunEnds(lo: int, hi: int, hs: seq<Heap>, ops: seq<Op>)
    requires Run(lo, hi, hs, ops)
    ensures |hs| == |ops| + 1
  {
  }

  /**
   * How the allocator answers: the lowest room of the rounded size, or the aligned address in the lowest padded room;
   * a refusal exactly if there is no such room. The answer is determined by the free bytes alone.
   */
  ghost predicate Answer(h: Heap, r: Request, op: Op)
  {
    match r
    case Malloc(size) =>
      var n := AlignUp(size, MIN_CHUNK_SIZE);
      if NoRoom(h.free, n) then op == Refused else op.Alloc? && op.block.size == n && LowestRoom(h.free, n, op.block.addr)
    case MallocAligned(size, align) =>
      var n := size + align + 16;
      if NoRoom(h.free, n) then op == Refused
      else op.Alloc? && op.block.size == size && 0 < align && AlignedRoom(h.free, n, align, op.block.addr) && op.block.addr % align == 0
    case Release(k) => op == if k < |h.live| then Op.Free(k) else Refused
  }

  /** One request is answered and is one step of the run. */
  method Serve(a: Allocator, live: seq<Chunk>, r: Request, ghost hs: seq<Heap>, ghost ops: seq<Op>)
    returns (live': seq<Chunk>, ghost op: Op)
    requires Follows(a, live, hs, ops) && Proper(r)
    modifies a.Footprint()
    ensures a.lo == old(a.lo) && a.hi == old(a.hi) && a.account == old(a.account)
    ensures Answer(Heap(old(a.Free()), live), r, op)
    ensures Follows(a, live', hs + [Heap(a.Free(), live')], ops + [op])
  {
    hide a.Valid, Run, FreeBytes, Range, AlignUp, IsPow2, NoRoom, LowestRoom, AlignedRoom;
    live', op := live, Refused;
    RunEnds(a.lo, a.hi, hs, ops);
    match r
    case Malloc(size) =>
      AlignedUp(size);
      var p, i := a.PosAlloc(size);
      SomeRoom(old(a.Free()), AlignUp(size, MIN_CHUNK_SIZE), p);
      if p != 0 {
        var b := Chunk(p, AlignUp(size, MIN_CHUNK_SIZE));
        Granted(a, live, hs, ops, b);
        live', op := live + [b], Op.Alloc(b);
      } else {
        Unchanged(a, live, hs, ops);
      }
    case MallocAligned(size, align) =>
      AlignedAlready(size);
      var p := a.PosAllocAlign(size, align);
      SomeAlignedRoom(old(a.Free()), size + align + 16, align, p);
      if p != 0 {
        var b := Chunk(p, size);
        Granted(a, live, hs, ops, b);
        live', op := live + [b], Op.Alloc(b);
      } else {
        Unchanged(a, live, hs, ops);
      }
    case Release(k) =>
      if k < |live| {
        MayRelease(a, live, hs, ops, k);
        AlignedAlready(live[k].size);
        a.PosFree(live[k].addr, live[k].size);
        Released(a, live, hs, ops, k);
        live', op := Without(live, k), Op.Free(k);
      } else {
        Unchanged(a, live, hs, ops);
      }
  }

  lemma SomeRoom(free: set<int>, n: int, p: int)
    ensures LowestRoom(free, n, p) ==> !NoRoom(free, n)
  {
    hide Room;
  }

  lemma SomeAlignedRoom(free: set<int>, n: int, align: int, result: int)
    requires 0 < align
    ensures AlignedRoom(free, n, align, result) ==> !NoRoom(free, n)
  {
    hide Room, AlignUp;
  }

  /** A refused request. */
  lemma Unchanged(a: Allocator, live: seq<Chunk>, hs: seq<Heap>, ops: seq<Op>)
    requires a.Valid() && Run(a.lo, a.hi, hs, ops) && hs[|ops|] == Heap(a.Free(), live) && forall c :: c in live ==> IsBlock(c)
    ensures Follows(a, live, hs + [Heap(a.Free(), live)], ops + [Refused])
  {
    hide Range, FreeBytes, a.Valid, Run;
    RunGrows(a.lo, a.hi, hs, ops, Refused, Heap(a.Free(), live));
    RunEnds(a.lo, a.hi, hs, ops);
  }

  /**
   * Any sequence of requests to an allocator that manages one free chunk: position by position they are answered from
   * the heap that the run has reached. At the end free bytes and live blocks add up to the whole, and if the client
   * holds nothing the single chunk is back.
   */
  method ServeAll(a: Allocator, requests: seq<Request>) returns (live: seq<Chunk>, ghost hs: seq<Heap>, ghost ops: seq<Op>)
    requires a.Valid() && a.Free() == Range(a.lo, a.hi) && ChunkOk(Chunk(a.lo, a.hi - a.lo), a.hi)
    requires forall i :: 0 <= i < |requests| ==> Proper(requests[i])
    modifies a.Footprint()
    ensures Follows(a, live, hs, ops) && a.lo == old(a.lo) && a.hi == old(a.hi)
    ensures |ops| == |requests| && forall i :: 0 <= i < |requests| ==> Answer(hs[i], requests[i], ops[i])
    ensures |a.Free()| + TotalSize(live) == a.hi - a.lo
    ensures live == [] ==> a.chunks == [Chunk(a.lo, a.hi - a.lo)]
  {
    hide a.Valid, FreeBytes, Range, Proper, Run, Answer;
    live, hs, ops := [], [Heap(a.Free(), [])], [];
    EmptyRun(a.lo, a.hi);
    for i := 0 to |requests|
      invariant Follows(a, live, hs, ops) && a.lo == old(a.lo) && a.hi == old(a.hi) && a.account == old(a.account)
      invariant |ops| == i && |hs| == i + 1 && forall j :: 0 <= j < i ==> Answer(hs[j], requests[j], ops[j])
    {
      ghost var op;
      live, op := Serve(a, live, requests[i], hs, ops);
      hs, ops := hs + [Heap(a.Free(), live)], ops + [op];
    }
    AtTheEnd(a, live, hs, ops);
  }

  lemma EmptyRun(lo: int, hi: int)
    ensures Run(lo, hi, [Heap(Range(lo, hi), [])], [])
  {
    hide Range;
  }

  lemma AtTheEnd(a: Allocator, live: seq<Chunk>, hs: seq<Heap>, ops: seq<Op>)
    requires Follows(a, live, hs, ops) && ChunkOk(Chunk(a.lo, a.hi - a.lo), a.hi)
    ensures |a.Free()| + TotalSize(live) == a.hi - a.lo
    ensures live == [] ==> a.chunks == [Chunk(a.lo, a.hi - a.lo)]
  {
    hide Run, Range, FreeBytes, WellFormed, Step;
    RunEnds(a.lo, a.hi, hs, ops);
    RunKeepsPartition(a.lo, a.hi, hs, ops, |ops|);
    if live == [] {
      AllFreedRestoresInitialChunk(a.lo, a.hi, hs, ops, |ops|, a.chunks);
    }
  }
}
