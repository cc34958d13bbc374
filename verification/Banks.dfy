// The accounting layer of kernel/alloc.c: how many free payload bytes each power bank holds,
// and which banks are powered.
module Banks {
  import opened FreeList
  import opened Arithmetic

  /** The first address of bank `b`, counting from the address of bank 0. */
  function BankStart(first: int, size: nat, b: nat): (start: int)
    ensures first <= start
  {
    if b == 0 then first else BankStart(first, size, b - 1) + size
  }

  /** The addresses of bank `b`. */
  function Bank(first: int, size: nat, b: nat): set<int>
  {
    Range(BankStart(first, size, b), BankStart(first, size, b) + size)
  }

  lemma {:induction false} BankOrder(first: int, size: nat, b: nat, c: nat)
    requires b < c
    ensures BankStart(first, size, b) + size <= BankStart(first, size, c)
  {
    if b < c - 1 {
      BankOrder(first, size, b, c - 1);
    }
  }

  /** Shifting an address right by the logarithm of the bank size finds its bank. */
  lemma {:induction false} BankStartIsMultiple(first: int, size: nat, b: nat)
    ensures BankStart(first, size, b) == first + b * size
  {
    if b != 0 {
      BankStartIsMultiple(first, size, b - 1);
    }
  }

  /** How many of the addresses `lo..hi` are in bank `b`. */
  function Overlap(first: int, size: nat, b: nat, lo: int, hi: int): (n: nat)
  {
    var start := BankStart(first, size, b);
    var from := if lo < start then start else lo;
    var to := if start + size < hi then start + size else hi;
    if from < to then to - from else 0
  }

  lemma OverlapCounts(first: int, size: nat, b: nat, lo: int, hi: int)
    ensures Overlap(first, size, b, lo, hi) == |Range(lo, hi) * Bank(first, size, b)|
  {
    var start := BankStart(first, size, b);
    var from := if lo < start then start else lo;
    var to := if start + size < hi then start + size else hi;
    assert Range(lo, hi) * Bank(first, size, b) == Range(from, to);
  }

  lemma BankSize(first: int, size: nat, b: nat)
    ensures |Bank(first, size, b)| == size
  {
  }

  /** The payload after some bytes become free (`factor` 1) or allocated (`factor` -1). */
  function After(payload: set<int>, bytes: set<int>, factor: int): set<int>
  {
    if factor == 1 then payload + bytes else payload - bytes
  }

  /** `n * factor` for the two factors that occur. */
  function Signed(n: int, factor: int): int
  {
    if factor == 1 then n else -n
  }

  /** Number of payload bytes in bank `b`. */
  ghost function CountIn(payload: set<int>, first: int, size: nat, b: nat): int
  {
    |payload * Bank(first, size, b)|
  }

  /** Every counter is the number of payload bytes in its bank. */
  ghost predicate Counts(counts: seq<int>, payload: set<int>, first: int, size: nat)
  {
    forall b :: 0 <= b < |counts| ==> counts[b] == CountIn(payload, first, size, b)
  }

  lemma SubsetCount(s: set<int>, t: set<int>)
    requires s <= t
    ensures |s| <= |t|
  {
    assert t == s + (t - s);
  }

  /** The counters move with the payload by the overlap with each bank, and stay within a bank's size. */
  lemma {:induction false} CountAfter(payload: set<int>, lo: int, hi: int, factor: int, first: int, size: nat, b: nat)
    requires if factor == 1 then Range(lo, hi) !! payload else Range(lo, hi) <= payload
    ensures CountIn(After(payload, Range(lo, hi), factor), first, size, b)
         == CountIn(payload, first, size, b) + Signed(Overlap(first, size, b, lo, hi), factor)
    ensures 0 <= CountIn(After(payload, Range(lo, hi), factor), first, size, b) <= size
  {
    hide Range, Bank, Overlap, After;
    var bank, bytes := Bank(first, size, b), Range(lo, hi);
    OverlapCounts(first, size, b, lo, hi);
    CountAfterIn(payload, bytes, bank, factor);
    SubsetCount(After(payload, bytes, factor) * bank, bank);
    BankSize(first, size, b);
  }

  lemma CountAfterIn(payload: set<int>, bytes: set<int>, bank: set<int>, factor: int)
    requires if factor == 1 then bytes !! payload else bytes <= payload
    ensures |After(payload, bytes, factor) * bank| == |payload * bank| + Signed(|bytes * bank|, factor)
  {
    var now := After(payload, bytes, factor);
    if factor == 1 {
      assert now * bank == payload * bank + bytes * bank;
    } else {
      assert payload * bank == now * bank + bytes * bank;
    }
  }

  /** The counters after the bytes `lo..hi` are accounted. */
  ghost function Moved(counts: seq<int>, first: int, size: nat, lo: int, hi: int, factor: int): (r: seq<int>)
    ensures |r| == |counts|
  {
    seq(|counts|, b requires 0 <= b < |counts| => counts[b] + Signed(Overlap(first, size, b, lo, hi), factor))
  }

  lemma NothingMoved(counts: seq<int>, first: int, size: nat, lo: int, factor: int)
    ensures Moved(counts, first, size, lo, lo, factor) == counts
    ensures Switched(counts, counts, size) == {}
  {
  }

  ghost predicate Within(counts: seq<int>, first: int, size: nat, lo: int, hi: int, factor: int)
  {
    forall b :: 0 <= b < |counts| ==> 0 <= counts[b] <= size && 0 <= counts[b] + Signed(Overlap(first, size, b, lo, hi), factor) <= size
  }

  lemma {:induction false} CountsWithin(counts: seq<int>, payload: set<int>, first: int, size: nat, lo: int, hi: int, factor: int)
    requires Counts(counts, payload, first, size)
    requires if factor == 1 then Range(lo, hi) !! payload else Range(lo, hi) <= payload
    ensures Within(counts, first, size, lo, hi, factor)
  {
    hide Overlap, Range, BankStart;
    forall b | 0 <= b < |counts|
      ensures 0 <= counts[b] <= size && 0 <= counts[b] + Signed(Overlap(first, size, b, lo, hi), factor) <= size
    {
      CountAfter(payload, lo, hi, factor, first, size, b);
      SubsetCount(payload * Bank(first, size, b), Bank(first, size, b));
      BankSize(first, size, b);
    }
  }

  lemma {:induction false} MovedCounts(before: seq<int>, payload: set<int>, first: int, size: nat, lo: int, hi: int, factor: int)
    requires Counts(before, payload, first, size)
    requires if factor == 1 then Range(lo, hi) !! payload else Range(lo, hi) <= payload
    ensures Counts(Moved(before, first, size, lo, hi, factor), After(payload, Range(lo, hi), factor), first, size)
  {
    hide CountIn, Overlap, Range, BankStart;
    var now := Moved(before, first, size, lo, hi, factor);
    forall b | 0 <= b < |now|
      ensures now[b] == CountIn(After(payload, Range(lo, hi), factor), first, size, b)
    {
      CountAfter(payload, lo, hi, factor, first, size, b);
    }
  }

  /** One round of the accounting loop: the bytes `x..y` of bank `bank` move its counter. */
  lemma {:induction false} MovedStep(before: seq<int>, first: int, size: nat, chunk: int, x: int, y: int, end: int,
                                     factor: int, bank: nat)
    requires bank < |before|
    requires BankStart(first, size, bank) <= x < y <= BankStart(first, size, bank) + size
    requires chunk <= x && y <= end && Within(before, first, size, chunk, end, factor)
    ensures var now := Moved(before, first, size, chunk, x, factor);
            && now[bank := now[bank] + Signed(y - x, factor)] == Moved(before, first, size, chunk, y, factor)
            && 0 <= now[bank] <= size && 0 <= now[bank] + Signed(y - x, factor) <= size
  {
    hide BankStart;
    forall b | 0 <= b < |before|
      ensures Overlap(first, size, b, chunk, y) == Overlap(first, size, b, chunk, x) + if b == bank then y - x else 0
    {
      if b < bank {
        BankOrder(first, size, b, bank);
      } else if bank < b {
        BankOrder(first, size, bank, b);
      }
    }
  }

  /** The banks that are entirely free in exactly one of the two states. */
  ghost function Switched(before: seq<int>, now: seq<int>, size: int): set<int>
    requires |before| == |now|
  {
    set b | 0 <= b < |now| && (before[b] == size) != (now[b] == size)
  }

  lemma {:induction false} SwitchedStep(before: seq<int>, first: int, size: nat, chunk: int, x: int, y: int, end: int,
                                        factor: int, bank: nat)
    requires bank < |before| && (factor == 1 || factor == -1)
    requires BankStart(first, size, bank) <= x < y <= BankStart(first, size, bank) + size
    requires chunk <= x && y <= end && Within(before, first, size, chunk, end, factor)
    requires x == chunk || x == BankStart(first, size, bank)
    ensures var now, next := Moved(before, first, size, chunk, x, factor), Moved(before, first, size, chunk, y, factor);
            Switched(before, next, size)
            == Switched(before, now, size) + (if factor == -1 && now[bank] == size then {bank} else {})
                                           + (if next[bank] == size then {bank} else {})
  {
    MovedStep(before, first, size, chunk, x, y, end, factor, bank);
    var now, next := Moved(before, first, size, chunk, x, factor), Moved(before, first, size, chunk, y, factor);
    assert now[bank] == before[bank];
    assert forall b :: 0 <= b < |before| && b != bank ==> next[b] == now[b];
  }

  /** The banks that are on are exactly those that are not entirely free. */
  ghost predicate Powered(counts: seq<int>, on: set<int>, size: int)
  {
    && (forall b :: b in on ==> 0 <= b < |counts|)
    && (forall b :: 0 <= b < |counts| ==> (b in on <==> counts[b] != size))
  }

  /** Switching exactly the banks in `Switched` keeps the others and restores the match. */
  lemma {:induction false} SwitchedBanks(before: seq<int>, now: seq<int>, size: int, factor: int, on: set<int>)
    requires |before| == |now| && (factor == 1 || factor == -1)
    requires Powered(before, on, size)
    requires forall b :: 0 <= b < |now| && before[b] != now[b] ==> (if factor == -1 then now[b] < size else before[b] < size)
    ensures var ctrl := Switched(before, now, size);
            && (ctrl == {} ==> Powered(now, on, size))
            && if factor == -1 then ctrl !! on && Powered(now, on + ctrl, size) else ctrl <= on && Powered(now, on - ctrl, size)
  {
    var ctrl := Switched(before, now, size);
    forall b | b in ctrl
      ensures b in on <==> factor == 1
    {
      assert (before[b] == size) == (factor == -1);
    }
    assert ctrl == {} ==> on + ctrl == on - ctrl == on;
  }

  lemma {:induction false} MovedDirection(before: seq<int>, first: int, size: nat, lo: int, hi: int, factor: int)
    requires (factor == 1 || factor == -1) && Within(before, first, size, lo, hi, factor)
    ensures var now := Moved(before, first, size, lo, hi, factor);
            forall b :: 0 <= b < |now| && before[b] != now[b] ==> (if factor == -1 then now[b] < size else before[b] < size)
  {
  }

  function Min(a: int, b: int): int
  {
    if a < b then a else b
  }

  /** The loop stands at byte `x`, inside bank `bank`, with `left` bytes to go. */
  ghost predicate Position(first: int, size: nat, chunk: int, bank: nat, addr: int, x: int, iterSize: int, left: int)
  {
    && first + addr == BankStart(first, size, bank) && 0 <= left && chunk <= x
    && (0 < left ==> (x == chunk || x == first + addr) && addr <= x - first && 0 < iterSize <= left)
    && (0 < left ==> x - first + iterSize == addr + size || (iterSize == left && x - first + iterSize < addr + size))
  }

  lemma PositionStep(first: int, size: nat, chunk: int, bank: nat, addr: int, x: int, iterSize: int, left: int)
    requires Position(first, size, chunk, bank, addr, x, iterSize, left) && 0 < left
    ensures 0 < size ==> Position(first, size, chunk, bank + 1, addr + size, x + iterSize, Min(size, left - iterSize), left - iterSize)
    ensures 0 < iterSize <= left && chunk <= x && (x == chunk || x == BankStart(first, size, bank))
    ensures BankStart(first, size, bank) <= x && x + iterSize <= BankStart(first, size, bank) + size
  {
  }

  lemma FirstPosition(first: int, size: nat, chunk: int, left: int)
    requires 0 < size && first <= chunk && 0 <= left
    ensures 0 <= (chunk - first) / size
    ensures var addr := AlignDown(chunk - first, size);
            var room := addr + size - (chunk - first);
            Position(first, size, chunk, (chunk - first) / size, addr, chunk, Min(room, left), left)
  {
    var q := Quotient(chunk - first, size);
    BankStartIsMultiple(first, size, q);
  }

  lemma Quotient(n: nat, size: nat) returns (q: nat)
    requires 0 < size
    ensures q == n / size && q * size <= n < q * size + size
  {
    q := n / size;
    assert n == n / size * size + n % size;
  }

  lemma BankExists(first: int, size: nat, bank: nat, banks: nat, x: int)
    requires BankStart(first, size, bank) <= x < BankStart(first, size, banks)
    ensures bank < banks
  {
    if banks < bank {
      BankOrder(first, size, banks, bank);
    }
  }

  /** The power part of `pos_alloc_t`; an allocator without it does not track power. */
  class Accounting {
    const pwdCount: array<int>
    const bankSizeLog2: nat
    const bankSize: nat
    const firstBankAddr: int
    /** The banks that are switched on. */
    ghost var powered: set<int>

    constructor (counts: array<int>, log2: nat, first: int, ghost on: set<int>)
      ensures pwdCount == counts && bankSizeLog2 == log2 && bankSize == Pow2(log2) && firstBankAddr == first
      ensures powered == on
    {
      pwdCount := counts;
      bankSizeLog2 := log2;
      bankSize := Pow2(log2);
      firstBankAddr := first;
      powered := on;
    }

    /** Addresses covered by the banks. */
    ghost predicate InBanks(lo: int, hi: int)
    {
      firstBankAddr <= lo && hi <= BankStart(firstBankAddr, bankSize, pwdCount.Length)
    }

    /** A bank is powered exactly when not all of its bytes are free payload. */
    ghost predicate PowerExact()
      reads this, pwdCount
    {
      pwdCount.Length <= 32 && 0 < bankSize && Powered(pwdCount[..], powered, bankSize)
    }

    /** Besides, every counter is the number of payload bytes in its bank. */
    ghost predicate Agrees(payload: set<int>)
      reads this, pwdCount
    {
      PowerExact() && Counts(pwdCount[..], payload, firstBankAddr, bankSize)
    }

    /** `pos_alloc_power_ctrl`: only ever asked to switch banks that are in the other state. */
    ghost method PowerCtrl(banks: set<int>, on: bool)
      requires banks != {}
      requires if on then banks !! powered else banks <= powered
      modifies this`powered
      ensures powered == if on then old(powered) + banks else old(powered) - banks
    {
      powered := if on then powered + banks else powered - banks;
    }

    /**
     * `pos_alloc_account`: every counter moves by the number of bytes the block has in its
     * bank, and exactly the banks that stop (`factor` -1) or start (`factor` 1) being entirely
     * free are switched.
     */
    method Account(chunk: int, size: int, factor: int)
      requires PowerExact() && (factor == 1 || factor == -1)
      requires 0 <= size && InBanks(chunk, chunk + size)
      requires Within(pwdCount[..], firstBankAddr, bankSize, chunk, chunk + size, factor)
      modifies this`powered, pwdCount
      ensures PowerExact()
      ensures pwdCount[..] == Moved(old(pwdCount[..]), firstBankAddr, bankSize, chunk, chunk + size, factor)
    {
      hide Moved, Within, Powered, Switched, Overlap, Position;
      var chunkAddr := chunk - firstBankAddr;
      FirstPosition(firstBankAddr, bankSize, chunk, size);
      var addr := AlignDown(chunkAddr, bankSize);
      var left := size;
      var iterSize := Min(addr + bankSize - chunkAddr, left);
      var bank: nat := chunkAddr / bankSize;
      var banksCtrl: set<int> := {};
      ghost var x, end, before := chunk, chunk + size, pwdCount[..];
      NothingMoved(before, firstBankAddr, bankSize, chunk, factor);
      while left != 0
        invariant 0 <= left && x == end - left && powered == old(powered)
        invariant Position(firstBankAddr, bankSize, chunk, bank, addr, x, iterSize, left)
        invariant pwdCount[..] == Moved(before, firstBankAddr, bankSize, chunk, x, factor)
        invariant banksCtrl == Switched(before, pwdCount[..], bankSize)
      {
        ghost var now, y := pwdCount[..], x + iterSize;
        PositionStep(firstBankAddr, bankSize, chunk, bank, addr, x, iterSize, left);
        BankExists(firstBankAddr, bankSize, bank, pwdCount.Length, x);
        MovedStep(before, firstBankAddr, bankSize, chunk, x, y, end, factor, bank);
        SwitchedStep(before, firstBankAddr, bankSize, chunk, x, y, end, factor, bank);
        if factor == -1 && pwdCount[bank] == bankSize {
          banksCtrl := banksCtrl + {bank};
        }
        // unsigned addition: the counter stays within 0..bankSize, so nothing wraps
        pwdCount[bank] := pwdCount[bank] + Signed(iterSize, factor);
        assert pwdCount[..] == now[bank := now[bank] + Signed(iterSize, factor)];
        if pwdCount[bank] == bankSize {
          banksCtrl := banksCtrl + {bank};
        }
        addr := addr + bankSize;
        left := left - iterSize;
        x := y;
        iterSize := Min(bankSize, left);
        bank := bank + 1;
      }
      MovedDirection(before, firstBankAddr, bankSize, chunk, end, factor);
      SwitchedBanks(before, pwdCount[..], bankSize, factor, powered);
      if banksCtrl != {} {
        PowerCtrl(banksCtrl, factor == -1);
      }
    }
  }
}
