// How a free list lies in memory: each chunk starts with its header, a cell holding the
// chunk's size and the address of the next chunk.
module Links {
  import opened FreeList

  /** Eight bytes of memory read as a chunk header (`pos_alloc_chunk_t`). */
  datatype Cell = Cell(size: int, next: int)

  /** Address of chunk `i`, or the null pointer behind the last one. */
  function Addr(cs: seq<Chunk>, i: nat): int
  {
    if i < |cs| then cs[i].addr else 0
  }

  /** The header in memory at address `a`. */
  function Header(mem: seq<Cell>, a: int): Cell
  {
    if 0 <= a / 8 < |mem| then mem[a / 8] else Cell(0, 0)
  }

  /** Starting from `first`, the headers in `mem` spell out the list `cs`. */
  ghost predicate Linked(mem: seq<Cell>, first: int, cs: seq<Chunk>)
  {
    && first == Addr(cs, 0)
    && forall i :: 0 <= i < |cs| ==> HeaderAt(mem, cs, i)
  }

  ghost predicate HeaderAt(mem: seq<Cell>, cs: seq<Chunk>, i: nat)
    requires i < |cs|
  {
    0 <= cs[i].addr / 8 < |mem| && Header(mem, cs[i].addr) == Cell(cs[i].size, Addr(cs, i + 1))
  }

  /** Different chunks have their headers in different cells. */
  lemma HeadersApart(cs: seq<Chunk>, limit: int, i: nat, j: nat)
    requires WellFormed(cs, limit) && i < |cs| && j < |cs| && i != j
    ensures cs[i].addr / 8 != cs[j].addr / 8
  {
    assert ChunkOk(cs[i], limit) && ChunkOk(cs[j], limit);
    if i < j {
      assert cs[i].End() < cs[j].addr;
    } else {
      assert cs[j].End() < cs[i].addr;
    }
  }

  /** A write into a block outside the free set hits no header. */
  lemma HeaderOutside(cs: seq<Chunk>, limit: int, i: nat, a: int)
    requires WellFormed(cs, limit) && i < |cs|
    requires a % 8 == 0 && a !in FreeBytes(cs, limit)
    ensures cs[i].addr / 8 != a / 8
  {
    assert ChunkOk(cs[i], limit) && Covers(cs, cs[i].addr);
  }

  /**
   * Replacing chunks `lo..hi` by `mid` in memory: write the header of the new chunk if there is
   * one, point the chunk before it (or the list head) to it, and keep every other header.
   */
  lemma {:induction false} RelinkAt(mem: seq<Cell>, mem': seq<Cell>, first: int, cs: seq<Chunk>, lo: nat, hi: nat, mid: seq<Chunk>, k: nat)
    requires Linked(mem, first, cs) && lo <= hi <= |cs| && |mid| <= 1 && |mem'| == |mem|
    requires mid != [] ==> 0 <= mid[0].addr / 8 < |mem| && Header(mem', mid[0].addr) == Cell(mid[0].size, Addr(cs, hi))
    requires 0 < lo ==> Header(mem', cs[lo - 1].addr) == Cell(cs[lo - 1].size, if mid == [] then Addr(cs, hi) else mid[0].addr)
    requires forall i :: 0 <= i < |cs| && (i + 1 < lo || hi <= i) ==> Header(mem', cs[i].addr) == Header(mem, cs[i].addr)
    requires k < |Splice(cs, lo, hi, mid)|
    ensures HeaderAt(mem', Splice(cs, lo, hi, mid), k)
  {
    var t := Splice(cs, lo, hi, mid);
    if k < lo {
      assert t[k] == cs[k] && HeaderAt(mem, cs, k);
      if k + 1 < lo {
        assert t[k + 1] == cs[k + 1];
      } else {
        assert Addr(t, lo) == if mid == [] then Addr(cs, hi) else mid[0].addr;
      }
    } else if k < lo + |mid| {
      assert t[k] == mid[0];
      assert Addr(t, k + 1) == Addr(cs, hi);
    } else {
      var i := k - (lo + |mid|) + hi;
      assert t[k] == cs[i] && HeaderAt(mem, cs, i);
      assert Addr(t, k + 1) == Addr(cs, i + 1);
    }
  }

  lemma {:induction false} Relink(mem: seq<Cell>, mem': seq<Cell>, first: int, first': int, cs: seq<Chunk>, lo: nat, hi: nat, mid: seq<Chunk>)
    requires Linked(mem, first, cs) && lo <= hi <= |cs| && |mid| <= 1 && |mem'| == |mem|
    requires mid != [] ==> 0 <= mid[0].addr / 8 < |mem| && Header(mem', mid[0].addr) == Cell(mid[0].size, Addr(cs, hi))
    requires first' == if 0 < lo then first else if mid == [] then Addr(cs, hi) else mid[0].addr
    requires 0 < lo ==> Header(mem', cs[lo - 1].addr) == Cell(cs[lo - 1].size, if mid == [] then Addr(cs, hi) else mid[0].addr)
    requires forall i :: 0 <= i < |cs| && (i + 1 < lo || hi <= i) ==> Header(mem', cs[i].addr) == Header(mem, cs[i].addr)
    ensures Linked(mem', first', Splice(cs, lo, hi, mid))
  {
    var t := Splice(cs, lo, hi, mid);
    forall k | 0 <= k < |t|
      ensures HeaderAt(mem', t, k)
    {
      RelinkAt(mem, mem', first, cs, lo, hi, mid, k);
    }
  }

  // ----- The writes of pos_alloc

  /** Memory after the remainder's header, if any, and the link to it are written. */
  function TakenMemory(mem: seq<Cell>, cs: seq<Chunk>, i: nat, n: int): (mem': seq<Cell>)
    requires i < |cs| && 0 <= (cs[i].addr + n) / 8
    ensures |mem'| == |mem|
  {
    var rest := n < cs[i].size;
    var w := if rest && (cs[i].addr + n) / 8 < |mem| then mem[(cs[i].addr + n) / 8 := Cell(cs[i].size - n, Addr(cs, i + 1))] else mem;
    if 0 < i && 0 <= cs[i - 1].addr / 8 < |mem|
    then w[cs[i - 1].addr / 8 := Cell(cs[i - 1].size, if rest then cs[i].addr + n else Addr(cs, i + 1))] else w
  }

  lemma {:induction false} TakenLinked(mem: seq<Cell>, first: int, cs: seq<Chunk>, i: nat, n: int, limit: int)
    requires WellFormed(cs, limit) && limit <= 8 * |mem| && Linked(mem, first, cs)
    requires i < |cs| && 0 < n <= cs[i].size && n % 8 == 0
    ensures 0 <= (cs[i].addr + n) / 8
    ensures Linked(TakenMemory(mem, cs, i, n),
                   if 0 < i then first else if n < cs[i].size then cs[i].addr + n else Addr(cs, i + 1),
                   Taken(cs, i, n))
  {
    hide WellFormed, Splice;
    var rest := Chunk(cs[i].addr + n, cs[i].size - n);
    var mid := if n < cs[i].size then [rest] else [];
    ChunksOk(cs, limit);
    var mem' := TakenMemory(mem, cs, i, n);
    forall k | 0 <= k < |cs| && (k + 1 < i || i + 1 <= k)
      ensures Header(mem', cs[k].addr) == Header(mem, cs[k].addr)
    {
      HeadersApart(cs, limit, k, i);
      if 0 < i {
        HeadersApart(cs, limit, k, i - 1);
      }
      ChunksApart(cs, limit, k, i);
    }
    if 0 < i {
      HeadersApart(cs, limit, i - 1, i);
      ChunksApart(cs, limit, i - 1, i);
    }
    Relink(mem, mem', first, if 0 < i then first else if mid == [] then Addr(cs, i + 1) else rest.addr, cs, i, i + 1, mid);
  }

  lemma ChunksOk(cs: seq<Chunk>, limit: int)
    requires WellFormed(cs, limit)
    ensures forall k :: 0 <= k < |cs| ==> ChunkOk(cs[k], limit)
  {
  }

  lemma ChunksApart(cs: seq<Chunk>, limit: int, i: nat, j: nat)
    requires WellFormed(cs, limit) && i < |cs| && j < |cs| && i != j
    ensures if i < j then cs[i].End() < cs[j].addr else cs[j].End() < cs[i].addr
  {
  }

  // ----- The writes of pos_free

  /** The header written into the block, coalesced with the chunk behind it if they touch. */
  ghost function BlockHeader(cs: seq<Chunk>, i: nat, b: Chunk): Cell
    requires i <= |cs|
  {
    if TouchesNext(cs, i, b) then Cell(b.size + cs[i].size, Addr(cs, i + 1)) else Cell(b.size, Addr(cs, i))
  }

  /** The header of the chunk in front, coalesced with the block or linked to it. */
  ghost function PreviousHeader(cs: seq<Chunk>, i: nat, b: Chunk): Cell
    requires 0 < i <= |cs|
  {
    if TouchesPrevious(cs, i, b) then Cell(cs[i - 1].size + BlockHeader(cs, i, b).size, BlockHeader(cs, i, b).next)
    else Cell(cs[i - 1].size, b.addr)
  }

  ghost function GivenMemory(mem: seq<Cell>, cs: seq<Chunk>, i: nat, b: Chunk): (mem': seq<Cell>)
    requires i <= |cs|
    ensures |mem'| == |mem|
  {
    var w := if 0 <= b.addr / 8 < |mem| then mem[b.addr / 8 := BlockHeader(cs, i, b)] else mem;
    if 0 < i && 0 <= cs[i - 1].addr / 8 < |mem| then w[cs[i - 1].addr / 8 := PreviousHeader(cs, i, b)] else w
  }

  lemma {:induction false} GivenLinked(mem: seq<Cell>, first: int, cs: seq<Chunk>, i: nat, b: Chunk, limit: int)
    requires WellFormed(cs, limit) && limit <= 8 * |mem| && Linked(mem, first, cs)
    requires InsertionPoint(cs, i, b) && ChunkOk(b, limit)
    ensures Linked(GivenMemory(mem, cs, i, b), if 0 < i then first else b.addr, Given(cs, i, b))
  {
    hide WellFormed, Splice;
    ChunksOk(cs, limit);
    var mem' := GivenMemory(mem, cs, i, b);
    var lo := if TouchesPrevious(cs, i, b) then i - 1 else i;
    var hi := if TouchesNext(cs, i, b) then i + 1 else i;
    forall k | 0 <= k < |cs| && (k + 1 < lo || hi <= k)
      ensures Header(mem', cs[k].addr) == Header(mem, cs[k].addr)
    {
      UntouchedHeader(mem, cs, i, b, limit, k);
    }
    if TouchesPrevious(cs, i, b) && 0 < lo {
      UntouchedHeader(mem, cs, i, b, limit, lo - 1);
      assert HeaderAt(mem, cs, lo - 1);
    }
    Relink(mem, mem', first, if 0 < i then first else b.addr, cs, lo, hi, [Merged(cs, i, b)]);
  }

  lemma {:induction false} UntouchedHeader(mem: seq<Cell>, cs: seq<Chunk>, i: nat, b: Chunk, limit: int, k: nat)
    requires WellFormed(cs, limit) && InsertionPoint(cs, i, b) && ChunkOk(b, limit)
    requires k < |cs| && k + 1 != i
    ensures Header(GivenMemory(mem, cs, i, b), cs[k].addr) == Header(mem, cs[k].addr)
  {
    hide WellFormed;
    ChunksOk(cs, limit);
    if 0 < i {
      HeadersApart(cs, limit, k, i - 1);
      ChunksApart(cs, limit, k, i - 1);
    }
    if i < |cs| && k != i {
      ChunksApart(cs, limit, k, i);
    }
  }
}
