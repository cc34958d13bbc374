// The memory for the stacks in kernel/cluster.c: the L1 heap is rebuilt before every request for it.
module ClusterStacks {
  import opened FreeList
  import opened A = Alloc

  /** The room behind the first header of the heap at `base`. */
  function HeapRoom(base: int, size: int): int
  {
    AlignDown(size - (AlignUp(base, MIN_CHUNK_SIZE) - base), MIN_CHUNK_SIZE)
  }

  /** Whether `n` bytes fit a heap that was just built. */
  predicate StacksFit(base: int, size: int, n: int)
  {
    AlignUp(n, MIN_CHUNK_SIZE) <= HeapRoom(base, size)
  }

  /**
   * What `cluster_start` does to the L1 heap: builds it twice and asks for the stacks. Whatever was allocated from it
   * before, the outcome is a matter of the constants alone, and so is the address.
   */
  method RebuildAndAllocate(l1: Allocator, base: int, size: int, n: int) returns (stacks: int)
    requires 0 < base <= INT_MAX - 7 && base + size <= 8 * l1.memory.Length <= INT_MAX - 7 && 8 <= HeapRoom(base, size)
    requires 0 < n <= INT_MAX - 7
    modifies l1, l1.memory
    ensures l1.Valid() && stacks == if StacksFit(base, size, n) then AlignUp(base, MIN_CHUNK_SIZE) else 0
  {
    hide AlignUp, AlignDown, FreeBytes, Range, Representable, NoRoom, LowestRoom, Allocator.Valid;
    AlignedUp(base);
    AlignedDown(size - (AlignUp(base, MIN_CHUNK_SIZE) - base));
    l1.PosAllocInit(base, size);
    l1.PosAllocInit(base, size);
    ghost var chunk, chunks := Chunk(AlignUp(base, MIN_CHUNK_SIZE), HeapRoom(base, size)), l1.chunks;
    assert chunks == [chunk];
    ghost var i;
    stacks, i := l1.PosAlloc(n);
    assert chunks[0] == chunk && (i == 0 || i == 1);
  }

  /** Two starts find stacks, and the same ones, or neither does. */
  method TwoStarts(l1: Allocator, base: int, size: int, n: int) returns (first: int, second: int)
    requires 0 < base <= INT_MAX - 7 && base + size <= 8 * l1.memory.Length <= INT_MAX - 7 && 8 <= HeapRoom(base, size)
    requires 0 < n <= INT_MAX - 7
    modifies l1, l1.memory
    ensures first == second && (first != 0 <==> StacksFit(base, size, n))
  {
    hide AlignDown, Allocator.Valid;
    first := RebuildAndAllocate(l1, base, size, n);
    second := RebuildAndAllocate(l1, base, size, n);
  }
}
