// The tick reader of kernel/tick.c: a pair of counters, one in hardware and one advanced by an
// interrupt handler, is read without locking.
module Tick {
  import opened Arithmetic

  /** POS_TICK_TIMER_COMPARE_VALUE: the timer counts from 0 to this value and restarts. */
  const COMPARE_VALUE := 99_999_999
  const PERIOD := COMPARE_VALUE + 1
  /** POS_TICK_MS_GRANULARITY: milliseconds per timer interrupt. */
  const MS_GRANULARITY := 100_000
  /** POS_TICK_TIMER_COUNTER_US_GRANULARITY: microseconds per timer count. */
  const US_GRANULARITY := 1

  const TWO32 := 0x1_0000_0000
  const TWO64 := 0x1_0000_0000_0000_0000

  /** The millisecond counter at true time `t`, in microseconds since the start. */
  function MsAt(t: nat): (ms: nat)
    ensures ms < TWO64
  {
    t / PERIOD * MS_GRANULARITY % TWO64
  }

  function CounterAt(t: nat): (c: nat)
    ensures c < PERIOD
  {
    t % PERIOD
  }

  /** A counter read as two words, the low one at `a` and the high one at `b`. */
  function Torn(a: nat, b: nat): nat
  {
    MsAt(a) % TWO32 + MsAt(b) / TWO32 * TWO32
  }

  /** At most one interrupt happens in less than a period. */
  lemma SamePeriod(a: nat, b: nat)
    requires a <= b < a + PERIOD
    ensures CounterAt(a) <= CounterAt(b) ==> a / PERIOD == b / PERIOD && b - a == CounterAt(b) - CounterAt(a)
    ensures CounterAt(b) < CounterAt(a) ==> b / PERIOD == a / PERIOD + 1
    ensures a / PERIOD <= b / PERIOD <= a / PERIOD + 1
  {
  }

  lemma UntornInSamePeriod(t: nat, a: nat, b: nat)
    requires a / PERIOD == b / PERIOD == t / PERIOD
    ensures Torn(a, b) == MsAt(t)
  {
  }

  lemma PeriodMonotone(a: nat, b: nat)
    requires a <= b
    ensures a / PERIOD <= b / PERIOD
  {
  }

  /** The instants of the nine loads of `safe_pull_counter_value`; the last three only if needed. */
  datatype Loads = Loads(c1: nat, l1: nat, h1: nat, c2: nat, l2: nat, h2: nat, c3: nat, l3: nat, h3: nat)

  /** Each load happens between `from` and `to`, and the loads of one group before those of the next. */
  ghost predicate Ordered(s: Loads, from: nat, to: nat)
  {
    && from <= s.c1 <= s.l1 <= s.c2 <= s.l2 <= s.c3 <= s.l3 <= to
    && s.c1 <= s.h1 <= s.c2 <= s.h2 <= s.c3 <= s.h3 <= to
  }

  /** The pair `(ms, counter)` is the true time at `t`. */
  ghost predicate Exact(t: nat, ms: int, counter: int)
  {
    ms == MsAt(t) && counter == CounterAt(t)
  }

  /**
   * The double read. From the two timer counts and the two, possibly torn, millisecond counts
   * the protocol picks a pair that was exact at one instant of the call.
   */
  lemma PickedPairIsExact(s: Loads, from: nat, to: nat) returns (t: nat)
    requires Ordered(s, from, to) && to < from + PERIOD
    ensures from <= t <= to
    ensures CounterAt(s.c2) > CounterAt(s.c1) ==> Exact(t, Torn(s.l1, s.h1), CounterAt(s.c1))
    ensures CounterAt(s.c2) < CounterAt(s.c1) ==> Exact(t, Torn(s.l2, s.h2), CounterAt(s.c2))
    ensures CounterAt(s.c2) == CounterAt(s.c1) && Torn(s.l2, s.h2) != Torn(s.l1, s.h1) ==> Exact(t, Torn(s.l3, s.h3), CounterAt(s.c3))
    ensures CounterAt(s.c2) == CounterAt(s.c1) && Torn(s.l2, s.h2) == Torn(s.l1, s.h1) ==> Exact(t, Torn(s.l1, s.h1), CounterAt(s.c1))
  {
    SamePeriod(s.c1, s.c2);
    SamePeriod(s.c1, to);
    if CounterAt(s.c2) >= CounterAt(s.c1) {
      // no interrupt between the two timer reads: the first millisecond count belongs to the first of them
      PeriodMonotone(s.c1, s.l1);
      PeriodMonotone(s.c1, s.h1);
      PeriodMonotone(s.l1, s.c2);
      PeriodMonotone(s.h1, s.c2);
      UntornInSamePeriod(s.c1, s.l1, s.h1);
      t := s.c1;
      if CounterAt(s.c2) == CounterAt(s.c1) && Torn(s.l2, s.h2) != Torn(s.l1, s.h1) {
        LateInterrupt(s, from, to);
        t := s.c3;
      }
    } else {
      // the interrupt of this period is over before the second timer read
      PeriodMonotone(s.c2, s.l2);
      PeriodMonotone(s.c2, s.h2);
      PeriodMonotone(s.l2, to);
      PeriodMonotone(s.h2, to);
      UntornInSamePeriod(s.c2, s.l2, s.h2);
      t := s.c2;
    }
  }

  /** Different millisecond counts at the same timer count: the interrupt came during the last load. */
  lemma LateInterrupt(s: Loads, from: nat, to: nat)
    requires Ordered(s, from, to) && to < from + PERIOD
    requires s.c1 == s.c2 && s.c1 == s.l1 == s.h1 && Torn(s.l2, s.h2) != Torn(s.l1, s.h1)
    ensures Exact(s.c3, Torn(s.l3, s.h3), CounterAt(s.c3))
  {
    SamePeriod(s.c1, to);
    PeriodMonotone(s.c1, s.l2);
    PeriodMonotone(s.c1, s.h2);
    PeriodMonotone(s.l2, s.c3);
    PeriodMonotone(s.h2, s.c3);
    PeriodMonotone(s.c3, s.l3);
    PeriodMonotone(s.c3, s.h3);
    PeriodMonotone(s.l3, to);
    PeriodMonotone(s.h3, to);
    if s.c3 / PERIOD == s.c1 / PERIOD {
      UntornInSamePeriod(s.c1, s.l2, s.h2);
      UntornInSamePeriod(s.c1, s.l1, s.h1);
    }
    UntornInSamePeriod(s.c3, s.l3, s.h3);
  }

  // ----- A handler that is late

  /** What a load of the millisecond count at `a` sees when the handler for the wrap at `wrap` runs only at `handled`. */
  function LateMs(a: nat, wrap: nat, handled: nat): nat
    requires 0 < wrap
  {
    if wrap <= a < handled then MsAt(wrap - 1) else MsAt(a)
  }

  function LateTorn(l: nat, h: nat, wrap: nat, handled: nat): nat
    requires 0 < wrap
  {
    LateMs(l, wrap, handled) % TWO32 + LateMs(h, wrap, handled) / TWO32 * TWO32
  }

  /** The instants of the loads that the protocol picks: of the timer count, and of the two words. */
  datatype Pair = Pair(c: nat, l: nat, h: nat)

  /** The selection of `safe_pull_counter_value`, from two timer counts and two millisecond counts. */
  function Picked(s: Loads, ms1: nat, ms2: nat): Pair
  {
    var a, b := CounterAt(s.c1), CounterAt(s.c2);
    if b > a then Pair(s.c1, s.l1, s.h1)
    else if b < a then Pair(s.c2, s.l2, s.h2)
    else if ms2 != ms1 then Pair(s.c3, s.l3, s.h3)
    else Pair(s.c1, s.l1, s.h1)
  }

  /** The handler does not change the high word. */
  predicate NoCarry(wrap: nat)
    requires 0 < wrap
  {
    MsAt(wrap - 1) / TWO32 == MsAt(wrap) / TWO32
  }

  /**
   * When the handler for the wrap at `wrap` runs at `handled`, the picked pair is the time at an instant of the call
   * exactly if its timer count was loaded before the wrap or its low word after the handler, and its high word too
   * unless the handler leaves that one alone. A handler that runs at the wrap always meets this.
   */
  lemma PickedPairIsExactIff(s: Loads, from: nat, to: nat, wrap: nat, handled: nat)
    requires Ordered(s, from, to) && to < from + PERIOD
    requires 0 < wrap <= handled && wrap % PERIOD == 0 && wrap <= from + PERIOD && to < wrap + PERIOD
    ensures var p := Picked(s, LateTorn(s.l1, s.h1, wrap, handled), LateTorn(s.l2, s.h2, wrap, handled));
            (exists t :: from <= t <= to && Exact(t, LateTorn(p.l, p.h, wrap, handled), CounterAt(p.c)))
            <==> p.c < wrap || (handled <= p.l && (handled <= p.h || NoCarry(wrap)))
  {
    hide MsAt, CounterAt, NoCarry, LateTorn;
    var ms1, ms2 := LateTorn(s.l1, s.h1, wrap, handled), LateTorn(s.l2, s.h2, wrap, handled);
    var p := Picked(s, ms1, ms2);
    PickedBeforeWrap(s, from, to, wrap, handled);
    ExactAtLoad(p.c, from, to, LateTorn(p.l, p.h, wrap, handled));
    if p.c < wrap {
      SeenBefore(p.c, p.l, p.h, wrap, handled);
    } else {
      SeenAfter(p, wrap, handled);
    }
  }

  /** Between two wraps the millisecond count stands still. */
  lemma MsBetweenWraps(a: nat, wrap: nat)
    requires 0 < wrap && wrap % PERIOD == 0 && wrap <= a + PERIOD && a < wrap + PERIOD
    ensures MsAt(a) == if a < wrap then MsAt(wrap - 1) else MsAt(wrap)
  {
    var q := wrap / PERIOD;
    assert wrap == q * PERIOD;
    assert a / PERIOD == if a < wrap then q - 1 else q;
    assert (wrap - 1) / PERIOD == q - 1;
  }

  lemma SameCounter(a: nat, b: nat)
    requires a <= b < a + PERIOD && CounterAt(a) == CounterAt(b)
    ensures a == b
  {
    SamePeriod(a, b);
  }

  /** The wrap lies between two timer counts exactly if the second one is smaller. */
  lemma CounterWraps(a: nat, b: nat, wrap: nat)
    requires a <= b < a + PERIOD && 0 < wrap && wrap % PERIOD == 0 && wrap <= a + PERIOD && b < wrap + PERIOD
    ensures CounterAt(b) < CounterAt(a) <==> a < wrap <= b
  {
    var q := wrap / PERIOD;
    assert wrap == q * PERIOD;
    assert a / PERIOD == if a < wrap then q - 1 else q;
    assert b / PERIOD == if b < wrap then q - 1 else q;
    SamePeriod(a, b);
  }

  /** Within a call of less than a period only the instant of the load has its timer count. */
  lemma ExactAtLoad(c: nat, from: nat, to: nat, ms: nat)
    requires from <= c <= to < from + PERIOD
    ensures (exists t :: from <= t <= to && Exact(t, ms, CounterAt(c))) <==> ms == MsAt(c)
  {
    hide MsAt, CounterAt;
    if t: nat :| from <= t <= to && Exact(t, ms, CounterAt(c)) {
      if t <= c {
        SameCounter(t, c);
      } else {
        SameCounter(c, t);
      }
    }
    if ms == MsAt(c) {
      assert Exact(c, ms, CounterAt(c));
    }
  }

  /** Loads before the wrap see the count of that time. */
  lemma SeenBefore(c: nat, l: nat, h: nat, wrap: nat, handled: nat)
    requires 0 < wrap <= handled && wrap % PERIOD == 0
    requires wrap <= c + PERIOD && c <= l < wrap && c <= h < wrap
    ensures LateTorn(l, h, wrap, handled) == MsAt(c)
  {
    hide MsAt;
    MsBetweenWraps(c, wrap);
    MsBetweenWraps(l, wrap);
    MsBetweenWraps(h, wrap);
  }

  /** The handler always changes the low word. */
  lemma LowWordChanges(wrap: nat)
    requires 0 < wrap && wrap % PERIOD == 0
    ensures MsAt(wrap - 1) % TWO32 != MsAt(wrap) % TWO32
  {
    hide MsAt;
    CounterBeforeWrap(wrap);
    NextCount(wrap - 1);
    LowWordMoves(MsAt(wrap - 1), MsAt(wrap));
  }

  lemma CounterBeforeWrap(wrap: nat)
    requires 0 < wrap && wrap % PERIOD == 0
    ensures CounterAt(wrap - 1) == COMPARE_VALUE
  {
  }

  lemma LowWordMoves(x: nat, y: nat)
    requires y == (x + MS_GRANULARITY) % TWO64
    ensures x % TWO32 != y % TWO32
  {
    var k := (x + MS_GRANULARITY) / TWO64;
    assert y == x + MS_GRANULARITY - k * TWO64;
    var d := y / TWO32 - x / TWO32;
    assert y - x == d * TWO32 + (y % TWO32 - x % TWO32);
    NoMultiple(d + k * TWO32);
  }

  lemma NoMultiple(d: int)
    ensures d * TWO32 != MS_GRANULARITY
  {
  }

  /** Loads after the wrap. */
  lemma SeenAfter(p: Pair, wrap: nat, handled: nat)
    requires 0 < wrap <= handled && wrap % PERIOD == 0
    requires wrap <= p.c <= p.l < wrap + PERIOD && p.c <= p.h < wrap + PERIOD
    ensures LateTorn(p.l, p.h, wrap, handled) == MsAt(p.c) <==> handled <= p.l && (handled <= p.h || NoCarry(wrap))
  {
    hide MsAt;
    MsBetweenWraps(p.c, wrap);
    MsBetweenWraps(p.l, wrap);
    MsBetweenWraps(p.h, wrap);
    LowWordChanges(wrap);
    WordsDecide(LateMs(p.l, wrap, handled), LateMs(p.h, wrap, handled), MsAt(wrap));
  }

  lemma WordsDecide(l: nat, h: nat, x: nat)
    ensures l % TWO32 + h / TWO32 * TWO32 == x <==> l % TWO32 == x % TWO32 && h / TWO32 == x / TWO32
  {
  }

  /** What the selection says about the wrap. */
  lemma PickedBeforeWrap(s: Loads, from: nat, to: nat, wrap: nat, handled: nat)
    requires Ordered(s, from, to) && to < from + PERIOD
    requires 0 < wrap <= handled && wrap % PERIOD == 0 && wrap <= from + PERIOD && to < wrap + PERIOD
    ensures var p := Picked(s, LateTorn(s.l1, s.h1, wrap, handled), LateTorn(s.l2, s.h2, wrap, handled));
            && from <= p.c && p.c <= p.l <= to && p.c <= p.h <= to
            && (p.c < wrap ==> p.l < wrap && p.h < wrap)
  {
    hide MsAt, CounterAt, LateTorn;
    CounterWraps(s.c1, s.c2, wrap);
    if CounterAt(s.c1) == CounterAt(s.c2) {
      SameCounter(s.c1, s.c2);
      if s.c3 < wrap {
        SeenBefore(s.c1, s.l1, s.h1, wrap, handled);
        SeenBefore(s.c1, s.l2, s.h2, wrap, handled);
      }
    }
  }

  // ----- The machine

  /** Timer hardware, the interrupt handler of kernel/tick32.S, and the thread that reads. */
  class Machine {
    /** True time: timer counts since the start. */
    ghost var now: nat
    var counter: int
    /** `pos_tick_counter_ms`, as the two words that loads and stores see. */
    var low: int
    var high: int

    ghost predicate Valid()
      reads this
    {
      && counter == CounterAt(now)
      && low == MsAt(now) % TWO32 && high == MsAt(now) / TWO32
    }

    constructor ()
      ensures Valid() && now == 0
    {
      now, counter, low, high := 0, 0, 0, 0;
    }

    /** The handler: the low word is advanced, and its unsigned overflow carries into the high word. */
    method InterruptHandler()
      requires 0 <= low < TWO32 && 0 <= high < TWO32
      modifies this`low, this`high
      ensures 0 <= low < TWO32 && 0 <= high < TWO32
      ensures low + high * 0x1_0000_0000 == (old(low) + old(high) * 0x1_0000_0000 + 100_000) % 0x1_0000_0000_0000_0000
    {
      var a0 := low;
      var a1 := (MS_GRANULARITY + a0) % TWO32;
      if a1 < a0 {
        low := a1;
        a1 := high;
        a1 := (a1 + 1) % TWO32;
        high := a1;
      } else {
        low := a1;
      }
    }

    /** One timer count passes; at the wrap the handler runs before the thread goes on. */
    method Count()
      requires Valid()
      modifies this
      ensures Valid() && now == old(now) + 1
    {
      NextCount(now);
      SplitWords(low, high);
      hide MsAt, CounterAt;
      now := now + 1;
      if counter == COMPARE_VALUE {
        counter := 0;
        InterruptHandler();
        SplitWords(low, high);
      } else {
        counter := counter + 1;
      }
    }

    /** Any time passes between two loads. */
    method Elapse()
      requires Valid()
      modifies this
      ensures Valid() && old(now) <= now
    {
      var n: nat :| true;
      for i := 0 to n
        invariant Valid() && old(now) <= now
      {
        Count();
      }
    }

    /** `timer_count_get`: one load. */
    method TimerCountGet() returns (c: int, ghost t: nat)
      requires Valid()
      modifies this
      ensures Valid() && old(now) <= t == now && c == CounterAt(t)
    {
      Elapse();
      c, t := counter, now;
    }

    /** A read of the 64-bit counter: two loads, in either order. */
    method LoadMs() returns (ms: int, ghost l: nat, ghost h: nat)
      requires Valid()
      modifies this
      ensures Valid() && old(now) <= l <= now && old(now) <= h <= now
      ensures ms == Torn(l, h)
    {
      var lowFirst: bool := *;
      var lo, hi := 0, 0;
      Elapse();
      if lowFirst {
        lo, l := low, now;
        Elapse();
        hi, h := high, now;
      } else {
        hi, h := high, now;
        Elapse();
        lo, l := low, now;
      }
      ms := lo + hi * TWO32;
    }

    /**
     * `safe_pull_counter_value`: in a call that takes less than one timer period, the pair is the
     * exact time at some instant of the call, although it is read in up to nine loads.
     */
    method SafePullCounterValue() returns (ms: int, c: int, ghost t: nat)
      requires Valid()
      modifies this
      ensures Valid() && old(now) <= now
      ensures now < old(now) + 100_000_000 ==> old(now) <= t <= now && Exact(t, ms, c)
    {
      hide Torn, MsAt, CounterAt;
      var c1, ms1, c2, ms2;
      ghost var s1, l1, h1, s2, l2, h2, s3, l3, h3;
      c1, s1 := TimerCountGet();
      ms1, l1, h1 := LoadMs();
      c2, s2 := TimerCountGet();
      ms2, l2, h2 := LoadMs();
      s3, l3, h3 := now, now, now;
      if c2 > c1 {
        c, ms := c1, ms1;
      } else if c2 < c1 {
        c, ms := c2, ms2;
      } else if c2 == c1 && ms2 != ms1 {
        c, s3 := TimerCountGet();
        ms, l3, h3 := LoadMs();
      } else {
        c, ms := c1, ms1;
      }
      t := now;
      if now < old(now) + PERIOD {
        t := PickedPairIsExact(Loads(s1, l1, h1, s2, l2, h2, s3, l3, h3), old(now), now);
      }
    }

    /** `get_counter_us_unsigned`: the true time in microseconds at an instant of the call. */
    method GetCounterUs() returns (us: int, ghost t: nat)
      requires Valid()
      modifies this
      ensures Valid() && old(now) <= now
      ensures now < old(now) + 100_000_000 ==> old(now) <= t <= now && us == t % TWO64
    {
      var ms, c;
      ms, c, t := SafePullCounterValue();
      c := c * US_GRANULARITY % TWO64;
      us := (ms * 1000 % TWO64 + c) % TWO64;
      if now < old(now) + PERIOD {
        MicrosecondsOf(t);
      }
    }

    /** `get_counter_ms_unsigned`: that time in whole milliseconds. */
    method GetCounterMs() returns (ms: int, ghost t: nat)
      requires Valid()
      modifies this
      ensures Valid() && old(now) <= now
      ensures now < old(now) + 100_000_000 ==> old(now) <= t <= now && ms == t / 1000 % TWO64
    {
      var c;
      ms, c, t := SafePullCounterValue();
      c := c * US_GRANULARITY % TWO64 / 1000;
      ms := (ms + c) % TWO64;
      if now < old(now) + PERIOD {
        MillisecondsOf(t);
      }
    }
  }

  /** One reading: when the call began and ended, and the instant that it reports if it took less than a timer period. */
  datatype Call = Call(start: nat, end: nat, at: nat)

  predicate Prompt(c: Call)
  {
    c.end < c.start + 100_000_000
  }

  /**
   * `n` readings in a row, with any time between them. Each prompt call returns the microseconds at an instant of the
   * call, so that of two prompt calls the later one never returns less, until the count wraps at 2^64.
   */
  method Readings(m: Machine, n: nat) returns (us: seq<int>, ghost calls: seq<Call>)
    requires m.Valid()
    modifies m
    ensures m.Valid() && |us| == |calls| == n
    ensures forall k :: 0 <= k < n ==> old(m.now) <= calls[k].start <= calls[k].end <= m.now
    ensures forall i, j :: 0 <= i < j < n ==> calls[i].end <= calls[j].start
    ensures forall k :: 0 <= k < n && Prompt(calls[k]) ==> calls[k].start <= calls[k].at <= calls[k].end && us[k] == calls[k].at % TWO64
    ensures forall i, j :: 0 <= i < j < n && Prompt(calls[i]) && Prompt(calls[j]) && calls[j].end < TWO64 ==> us[i] <= us[j]
  {
    us, calls := [], [];
    for k := 0 to n
      invariant m.Valid() && |us| == |calls| == k && old(m.now) <= m.now
      invariant forall i :: 0 <= i < k ==> old(m.now) <= calls[i].start <= calls[i].end <= m.now
      invariant forall i, j :: 0 <= i < j < k ==> calls[i].end <= calls[j].start
      invariant forall i :: 0 <= i < k && Prompt(calls[i]) ==> calls[i].start <= calls[i].at <= calls[i].end && us[i] == calls[i].at % TWO64
    {
      m.Elapse();
      ghost var start := m.now;
      var u, t := m.GetCounterUs();
      us, calls := us + [u], calls + [Call(start, m.now, t)];
    }
    forall i, j | 0 <= i < j < n && Prompt(calls[i]) && Prompt(calls[j]) && calls[j].end < TWO64
      ensures us[i] <= us[j]
    {
      ReadingsNeverDecrease(calls[i].at, calls[j].at);
    }
  }

  lemma SplitWords(low: nat, high: nat)
    requires low < TWO32 && high < TWO32
    ensures low == (low + high * TWO32) % TWO32 && high == (low + high * TWO32) / TWO32
    ensures low + high * TWO32 < TWO64
  {
  }

  /** A timer count at the wrap adds the granularity to the millisecond count, any other nothing. */
  lemma NextCount(t: nat)
    ensures if CounterAt(t) == COMPARE_VALUE
            then CounterAt(t + 1) == 0 && MsAt(t + 1) == (MsAt(t) + MS_GRANULARITY) % TWO64
            else CounterAt(t + 1) == CounterAt(t) + 1 && MsAt(t + 1) == MsAt(t)
    ensures MsAt(t) == MsAt(t) % TWO32 + MsAt(t) / TWO32 * TWO32 && MsAt(t) / TWO32 < TWO32
  {
    var q := t / PERIOD;
    assert t == q * PERIOD + CounterAt(t);
    if CounterAt(t) == COMPARE_VALUE {
      assert t + 1 == (q + 1) * PERIOD;
      var w := q * MS_GRANULARITY / TWO64;
      assert MsAt(t) == q * MS_GRANULARITY - w * TWO64;
      SameResidue((q + 1) * MS_GRANULARITY, -w);
    }
  }

  lemma SameResidue(a: int, k: int)
    ensures (a + k * TWO64) % TWO64 == a % TWO64
  {
  }

  lemma AddResidues(a: int, b: int)
    ensures (a % TWO64 + b) % TWO64 == (a + b) % TWO64
  {
    SameResidue(a + b, -(a / TWO64));
  }

  /** A period is as many microseconds as its milliseconds say. */
  lemma MicrosecondsOf(t: nat)
    ensures (MsAt(t) * 1000 % TWO64 + CounterAt(t) * US_GRANULARITY % TWO64) % TWO64 == t % TWO64
  {
    hide MsAt, CounterAt;
    var q, c := t / PERIOD, CounterAt(t);
    CounterIs(t);
    MillisecondsTimes1000(t);
    AddResidues(q * PERIOD, c);
  }

  lemma CounterIs(t: nat)
    ensures t == t / PERIOD * PERIOD + CounterAt(t) && CounterAt(t) * US_GRANULARITY % TWO64 == CounterAt(t)
  {
  }

  lemma MillisecondsTimes1000(t: nat)
    ensures MsAt(t) * 1000 % TWO64 == t / PERIOD * PERIOD % TWO64
  {
    var q := t / PERIOD;
    var w := q * MS_GRANULARITY / TWO64;
    assert MsAt(t) == q * MS_GRANULARITY - w * TWO64;
    SameResidue(q * PERIOD, -1000 * w);
  }

  lemma MillisecondsOf(t: nat)
    ensures (MsAt(t) + CounterAt(t) * US_GRANULARITY % TWO64 / 1000) % TWO64 == t / 1000 % TWO64
  {
    var q := t / PERIOD;
    AddResidues(q * MS_GRANULARITY, CounterAt(t) / 1000);
    assert t / 1000 == q * MS_GRANULARITY + CounterAt(t) / 1000;
  }

  /** Until the 64-bit count wraps, later instants have no smaller readings. */
  lemma ReadingsNeverDecrease(t: nat, t': nat)
    requires t <= t' < TWO64
    ensures t % TWO64 <= t' % TWO64 && t / 1000 % TWO64 <= t' / 1000 % TWO64
  {
  }

  /**
   * `pos_tick_get_counter_us` returns the count as a 32-bit `long`: its readings never decrease up to an instant
   * exactly if the instant is before 2^31 microseconds.
   */
  lemma LongReadingsNeverDecreaseIff(last: nat)
    ensures (forall t: nat, t': nat :: t <= t' <= last ==> S32(t % TWO64) <= S32(t' % TWO64)) <==> last < 0x8000_0000
  {
    if last >= 0x8000_0000 {
      assert S32(0x7FFF_FFFF % TWO64) > S32(0x8000_0000 % TWO64);
    }
  }
}
