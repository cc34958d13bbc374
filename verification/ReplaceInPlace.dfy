// Replacing in the buffer itself, arduino/cores/String.cpp: in place when the replacement is not longer than the match,
// in a buffer that may grow when it is.
module ReplaceInPlace {
  import opened Common
  import opened Search
  import opened ReplaceSpec
  import Memmem

  /** `memcpy` and `memmove`: `data` goes to `buffer[at..]`. */
  method StoreAt(buffer: array<byte>, at: nat, data: seq<byte>)
    requires at + |data| <= buffer.Length
    modifies buffer
    ensures buffer[..at] == old(buffer[..at]) && buffer[at..at + |data|] == data
    ensures forall i :: at + |data| <= i < buffer.Length ==> buffer[i] == old(buffer[i])
    ensures StoredAt(old(buffer[..]), buffer[..], at, data)
  {
    hide StoredAt;
    for i := 0 to |data|
      invariant forall j :: 0 <= j < buffer.Length ==> buffer[j] == if at <= j < at + i then data[j - at] else old(buffer[j])
    {
      buffer[at + i] := data[i];
    }
    Stored(old(buffer[..]), buffer[..], at, data);
  }

  /** Overwrites what follows the first `p` bytes of `buffer[from..length]`. */
  method Overwrite(buffer: array<byte>, from: nat, length: nat, p: nat, data: seq<byte>)
    requires from + p + |data| <= length <= buffer.Length
    modifies buffer
    ensures buffer[..from + p + |data|] == old(buffer[..from]) + (old(buffer[from..length])[..p] + data)
    ensures buffer[from + p + |data|..length] == old(buffer[from..length])[p + |data|..]
    ensures forall i :: length <= i < buffer.Length ==> buffer[i] == old(buffer[i])
  {
    hide StoredAt;
    ghost var before := buffer[..];
    StoreAt(buffer, from + p, data);
    Overwritten(before, buffer[..], from, length, p, data);
  }

  lemma Overwritten(before: seq<byte>, now: seq<byte>, from: nat, length: nat, p: nat, data: seq<byte>)
    requires from + p + |data| <= length <= |before| && StoredAt(before, now, from + p, data)
    ensures now[..from + p + |data|] == before[..from] + (before[from..length][..p] + data)
    ensures now[from + p + |data|..length] == before[from..length][p + |data|..]
  {
    assert before[..from + p] == before[..from] + before[from..length][..p];
    assert before[from + p + |data|..][..length - from - p - |data|] == before[from..length][p + |data|..];
    assert now[from + p + |data|..length] == before[from + p + |data|..][..length - from - p - |data|];
  }

  /** Replaces the `cut` bytes there instead, and moves the rest down. */
  method Splice(buffer: array<byte>, from: nat, length: nat, p: nat, cut: nat, data: seq<byte>)
    requires from + p + cut <= length <= buffer.Length && |data| <= cut
    modifies buffer
    ensures buffer[..from + p + |data|] == old(buffer[..from]) + (old(buffer[from..length])[..p] + data)
    ensures buffer[from + p + |data|..length - cut + |data|] == old(buffer[from..length])[p + cut..]
    ensures forall i :: length <= i < buffer.Length ==> buffer[i] == old(buffer[i])
  {
    ghost var rest, done := buffer[from..length], buffer[..from];
    var moved := buffer[from + p + cut..length];
    assert moved == rest[p + cut..];
    Overwrite(buffer, from, length, p, data);
    ghost var front := buffer[..from + p + |data|];
    StoreAt(buffer, from + p + |data|, moved);
    assert buffer[..from + p + |data|] == front;
  }

  /** Where the match is in `buffer[from..from + length]`, as `mem_search_tokenize` reports it. */
  method Tokenize(buffer: array<byte>, from: nat, length: nat, target: seq<byte>, twoWay: bool) returns (previous: Option<nat>, next: nat)
    requires from + length <= buffer.Length
    ensures previous == Found(buffer[from..from + length], target)
    ensures previous.Some? ==> 0 < |target| && previous.value + |target| <= length && next == length - |target| - previous.value
  {
    FoundFits(buffer[from..from + length], target);
    previous := Memmem.Memmem(buffer[from..from + length], target, twoWay);
    next := if previous.Some? then length - |target| - previous.value else 0;
  }

  /** `done` is final, `rest` is still to be searched, and `count` matches were replaced. */
  ghost predicate Progress(all: seq<byte>, target: seq<byte>, replacement: seq<byte>, done: seq<byte>, rest: seq<byte>, count: nat)
  {
    && Replaced(all, target, replacement) == done + Replaced(rest, target, replacement)
    && Matches(all, target) == count + Matches(rest, target)
  }

  lemma ProgressStart(all: seq<byte>, target: seq<byte>, replacement: seq<byte>)
    ensures Progress(all, target, replacement, [], all, 0)
  {
    hide Replaced, Matches;
  }

  lemma ProgressStep(all: seq<byte>, target: seq<byte>, replacement: seq<byte>, done: seq<byte>, rest: seq<byte>, count: nat)
    requires Progress(all, target, replacement, done, rest, count)
    ensures var r := Found(rest, target);
            && (r.None? ==> Replaced(all, target, replacement) == done + rest && Matches(all, target) == count)
            && (r.Some? ==>
                  && 0 < |target| && r.value + |target| <= |rest|
                  && Progress(all, target, replacement, done + (rest[..r.value] + replacement), rest[r.value + |target|..], count + 1))
  {
    hide Found, Replaced, Matches;
    ReplaceStep(rest, target, replacement);
    var r := Found(rest, target);
    if r.Some? {
      var tail := Replaced(rest[r.value + |target|..], target, replacement);
      assert done + (rest[..r.value] + replacement + tail) == done + (rest[..r.value] + replacement) + tail;
    }
  }

  /** `mem_replace_with_same_size`: the content becomes the specified one and every match is counted. */
  method ReplaceSameSize(buffer: array<byte>, length: nat, target: seq<byte>, replacement: seq<byte>, twoWay: bool) returns (count: nat)
    requires length <= buffer.Length && |target| == |replacement|
    modifies buffer
    ensures buffer[..length] == Replaced(old(buffer[..length]), target, replacement)
    ensures count == Matches(old(buffer[..length]), target)
    ensures forall i :: length <= i < buffer.Length ==> buffer[i] == old(buffer[i])
  {
    hide Found, Replaced, Matches, Progress;
    ProgressStart(buffer[..length], target, replacement);
    var from: nat, left: nat := 0, length;
    count := 0;
    assert buffer[..0] == [];
    while true
      invariant from + left == length
      invariant Progress(old(buffer[..length]), target, replacement, buffer[..from], buffer[from..length], count)
      invariant forall i :: length <= i < buffer.Length ==> buffer[i] == old(buffer[i])
      decreases left
      modifies buffer
    {
      ghost var rest := buffer[from..length];
      var previous, next := Tokenize(buffer, from, left, target, twoWay);
      ProgressStep(old(buffer[..length]), target, replacement, buffer[..from], rest, count);
      if previous.None? {
        break;
      }
      var found := from + previous.value;
      Overwrite(buffer, from, length, previous.value, replacement);
      from, left := found + |target|, next;
      count := count + 1;
    }
  }

  /**
   * `mem_replace_with_smaller_size`: the content becomes the specified one, but its new length is reported as 0 if
   * nothing matched.
   */
  method ReplaceSmaller(buffer: array<byte>, length: nat, target: seq<byte>, replacement: seq<byte>, twoWay: bool)
    returns (count: nat, newLength: nat)
    requires length <= buffer.Length && |replacement| < |target|
    modifies buffer
    ensures count == Matches(old(buffer[..length]), target)
    ensures var result := Replaced(old(buffer[..length]), target, replacement);
            && |result| <= length && buffer[..|result|] == result
            && newLength == if count == 0 then 0 else |result|
    ensures forall i :: length <= i < buffer.Length ==> buffer[i] == old(buffer[i])
  {
    hide Found, Replaced, Matches, Progress;
    ProgressStart(buffer[..length], target, replacement);
    var from: nat, left: nat := 0, length;
    count, newLength := 0, 0;
    assert buffer[..0] == [];
    while true
      invariant from + left <= length && from == newLength && (count == 0 ==> from == 0)
      invariant Progress(old(buffer[..length]), target, replacement, buffer[..from], buffer[from..from + left], count)
      invariant forall i :: length <= i < buffer.Length ==> buffer[i] == old(buffer[i])
      decreases left
      modifies buffer
    {
      ghost var rest := buffer[from..from + left];
      var previous, next := Tokenize(buffer, from, left, target, twoWay);
      ProgressStep(old(buffer[..length]), target, replacement, buffer[..from], rest, count);
      if previous.None? {
        break;
      }
      var found := from + previous.value;
      Splice(buffer, from, from + left, previous.value, |target|, replacement);
      from, left := found + |replacement|, next;
      count := count + 1;
      newLength := newLength + previous.value + |replacement|;
    }
    if 0 < count {
      newLength := newLength + left;
    }
  }

  // ----- Longer replacements

  /** `done` and `rest` in front of what was in memory behind them. */
  ghost predicate Holds(memory: seq<byte>, before: seq<byte>, done: seq<byte>, rest: seq<byte>)
  {
    |done| + |rest| <= |before| && memory == done + rest + before[|done| + |rest|..]
  }

  lemma HoldsParts(memory: seq<byte>, before: seq<byte>, done: seq<byte>, rest: seq<byte>)
    requires Holds(memory, before, done, rest)
    ensures |memory| == |before| && |done| + |rest| <= |before|
    ensures memory[|done|..|done| + |rest|] == rest && memory[..|done| + |rest|] == done + rest
    ensures forall i :: |done| + |rest| <= i < |memory| ==> memory[i] == before[i]
  {
  }

  lemma HoldsTail(memory: seq<byte>, before: seq<byte>, done: seq<byte>, rest: seq<byte>, k: nat)
    requires Holds(memory, before, done, rest) && k <= |rest|
    ensures |done| + |rest| <= |memory| && memory[|done| + k..|done| + |rest|] == rest[k..]
  {
  }

  lemma HoldsStart(memory: seq<byte>, length: nat)
    requires length <= |memory|
    ensures Holds(memory, memory, [], memory[..length])
  {
  }

  /** Moves what follows `cut` bytes up, and writes `data` in front of it. */
  method Widen(memory: array<byte>, from: nat, end: nat, p: nat, cut: nat, data: seq<byte>, ghost before: seq<byte>, ghost done: seq<byte>, ghost rest: seq<byte>)
    requires Holds(memory[..], before, done, rest) && from == |done| && end == from + |rest|
    requires p + cut <= |rest| && cut <= |data| && end - cut + |data| <= memory.Length
    modifies memory
    ensures Holds(memory[..], before, done + (rest[..p] + data), rest[p + cut..])
  {
    hide Holds, StoredAt;
    HoldsTail(memory[..], before, done, rest, p + cut);
    ghost var m0 := memory[..];
    var moved := memory[from + p + cut..end];
    assert moved == m0[from + p + cut..end];
    StoreAt(memory, from + p + |data|, moved);
    ghost var m1 := memory[..];
    StoreAt(memory, from + p, data);
    Widened(m0, m1, memory[..], before, done, rest, p, cut, data);
  }

  ghost predicate StoredAt(before: seq<byte>, now: seq<byte>, at: nat, data: seq<byte>)
  {
    at + |data| <= |before| && now == before[..at] + data + before[at + |data|..]
  }

  lemma Stored(before: seq<byte>, now: seq<byte>, at: nat, data: seq<byte>)
    requires |now| == |before| && at + |data| <= |now| && now[..at] == before[..at] && now[at..at + |data|] == data
    requires forall i :: at + |data| <= i < |now| ==> now[i] == before[i]
    ensures StoredAt(before, now, at, data)
  {
    assert now == now[..at] + now[at..at + |data|] + now[at + |data|..];
  }

  lemma Widened(m0: seq<byte>, m1: seq<byte>, m2: seq<byte>, before: seq<byte>, done: seq<byte>, rest: seq<byte>, p: nat, cut: nat, data: seq<byte>)
    requires Holds(m0, before, done, rest) && p + cut <= |rest| && cut <= |data| && |done| + |rest| - cut + |data| <= |m0|
    requires StoredAt(m0, m1, |done| + p + |data|, rest[p + cut..]) && StoredAt(m1, m2, |done| + p, data)
    ensures Holds(m2, before, done + (rest[..p] + data), rest[p + cut..])
  {
    var at, end := |done| + p + |data|, |done| + |rest| - cut + |data|;
    assert m2 == m1[..|done| + p] + data + m1[at..];
    assert m1[..|done| + p] == m0[..|done| + p] == done + rest[..p];
    assert m1[at..] == rest[p + cut..] + m0[end..];
    assert m0[end..] == before[end..];
  }

  /** The capacity that the buffer grows to at the first match. */
  function GrownCapacity(length: nat, capacity: nat, target: seq<byte>, replacement: seq<byte>): int
  {
    if capacity < length + |replacement| - |target| then length + |replacement| - |target| else capacity
  }

  /**
   * `mem_replace_with_larger_size` on the memory from the start of the buffer on; `capacity` bytes of it are the buffer's,
   * and `grows` tells whether reallocating succeeds. The result is the specified one and reaches exactly to its own end,
   * which is not what the buffer is grown to: see `LargerStaysInsideIff`. `count` is -1 if the buffer cannot grow.
   */
  method ReplaceLarger(memory: array<byte>, length: nat, capacity: nat, target: seq<byte>, replacement: seq<byte>, grows: bool, twoWay: bool)
    returns (count: int, newLength: nat, newCapacity: int)
    requires length <= capacity && |target| < |replacement|
    requires length <= memory.Length && |Replaced(memory[..length], target, replacement)| <= memory.Length
    modifies memory
    ensures LargerOutcome(old(memory[..]), memory[..], length, capacity, target, replacement, grows, count, newLength, newCapacity)
  {
    hide Found, Replaced, Matches, Underway, RecordedLength, GrownCapacity, Holds, LargerOutcome;
    ghost var before, all := memory[..], memory[..length];
    ghost var done, rest := [], all;
    UnderwayStart(all, target, replacement, capacity);
    HoldsStart(before, length);
    var from: nat, left: nat, counted: nat := 0, length, 0;
    count, newLength, newCapacity := 0, length, capacity;
    while true
      invariant 0 <= count && from == |done| && left == |rest| && Holds(memory[..], before, done, rest)
      invariant Underway(all, target, replacement, done, rest, count, counted, newLength, capacity, newCapacity)
      invariant count == 0 || capacity >= length + |replacement| - |target| || grows
      invariant count == 0 ==> memory[..] == before
      decreases left
      modifies memory
    {
      HoldsParts(memory[..], before, done, rest);
      var previous, next := Tokenize(memory, from, left, target, twoWay);
      assert memory[from..from + left] == rest;
      LargerStep(all, target, replacement, done, rest, count, counted, newLength, capacity, newCapacity);
      if previous.None? {
        break;
      }
      counted := counted + previous.value;
      var needed := counted + |replacement| + next;
      if needed > newCapacity {
        // only at the first match: each later one needs |target| bytes less
        if !grows {
          NoGrowth(before, length, capacity, target, replacement);
          count := -(count + 1);
          return;
        }
        newCapacity := needed;
      }
      Widen(memory, from, from + left, previous.value, |target|, replacement, before, done, rest);
      done, rest := done + (rest[..previous.value] + replacement), rest[previous.value + |target|..];
      from, left := from + previous.value + |replacement|, next;
      newLength := needed;
      count := count + 1;
    }
    LargerDone(before, memory[..], length, capacity, target, replacement, grows, count, newLength, newCapacity, done, rest);
  }

  /** Nothing changes without a match or when the buffer cannot grow; otherwise the result reaches exactly to its own end. */
  ghost predicate LargerOutcome(before: seq<byte>, now: seq<byte>, length: nat, capacity: nat, target: seq<byte>, replacement: seq<byte>,
                                grows: bool, count: int, newLength: nat, newCapacity: int)
  {
    && length <= |before| && |now| == |before|
    && var s := before[..length];
       var result := Replaced(s, target, replacement);
       if Matches(s, target) == 0 || (capacity < length + |replacement| - |target| && !grows) then
         && now == before && newLength == length && newCapacity == capacity
         && count == (if Matches(s, target) == 0 then 0 else -1)
       else
         && count == Matches(s, target) && length <= |result| <= |now|
         && now[..|result|] == result && now[|result|..] == before[|result|..]
         && newLength == RecordedLength(s, target, replacement, 0, length)
         && newCapacity == GrownCapacity(length, capacity, target, replacement)
  }

  lemma NoGrowth(before: seq<byte>, length: nat, capacity: nat, target: seq<byte>, replacement: seq<byte>)
    requires length <= |before| && 0 < Matches(before[..length], target) && capacity < length + |replacement| - |target|
    ensures LargerOutcome(before, before, length, capacity, target, replacement, false, -1, length, capacity)
  {
    hide Matches, Replaced, RecordedLength;
  }

  lemma LargerDone(before: seq<byte>, now: seq<byte>, length: nat, capacity: nat, target: seq<byte>, replacement: seq<byte>,
                   grows: bool, count: nat, newLength: nat, newCapacity: int, done: seq<byte>, rest: seq<byte>)
    requires length <= |before| && |target| < |replacement| && Holds(now, before, done, rest)
    requires var s := before[..length];
             && Replaced(s, target, replacement) == done + rest && Matches(s, target) == count
             && RecordedLength(s, target, replacement, 0, length) == newLength && (count == 0 ==> newLength == length)
    requires newCapacity == if count == 0 then capacity else GrownCapacity(length, capacity, target, replacement)
    requires count == 0 || capacity >= length + |replacement| - |target| || grows
    requires count == 0 ==> now == before
    ensures LargerOutcome(before, now, length, capacity, target, replacement, grows, count, newLength, newCapacity)
  {
    hide Matches, Replaced, RecordedLength;
    ResultGrows(before[..length], target, replacement);
  }

  /** What holds of the loop: progress, the lengths that are recorded, and the capacity. */
  ghost predicate Underway(all: seq<byte>, target: seq<byte>, replacement: seq<byte>, done: seq<byte>, rest: seq<byte>,
                           count: nat, before: nat, recorded: nat, capacity: nat, newCapacity: int)
  {
    && Progress(all, target, replacement, done, rest, count)
    && RecordedLength(all, target, replacement, 0, |all|) == RecordedLength(rest, target, replacement, before, recorded)
    && (count == 0 ==> before == 0 && rest == all && recorded == |all| && newCapacity == capacity)
    && (0 < count ==> before + |replacement| + |rest| <= newCapacity == GrownCapacity(|all|, capacity, target, replacement))
  }

  lemma UnderwayStart(all: seq<byte>, target: seq<byte>, replacement: seq<byte>, capacity: nat)
    ensures Underway(all, target, replacement, [], all, 0, 0, |all|, capacity, capacity)
  {
    hide Progress, RecordedLength;
    ProgressStart(all, target, replacement);
  }

  /** One step of the loop: what is left to do, and the memory that holds the result holds the content now. */
  lemma LargerStep(all: seq<byte>, target: seq<byte>, replacement: seq<byte>, done: seq<byte>, rest: seq<byte>,
                   count: nat, before: nat, recorded: nat, capacity: nat, newCapacity: int)
    requires Underway(all, target, replacement, done, rest, count, before, recorded, capacity, newCapacity)
    requires |target| < |replacement|
    ensures var r := Found(rest, target);
            && (r.None? ==>
                  && Replaced(all, target, replacement) == done + rest && Matches(all, target) == count
                  && RecordedLength(all, target, replacement, 0, |all|) == recorded && (count == 0 ==> recorded == |all|)
                  && newCapacity == if count == 0 then capacity else GrownCapacity(|all|, capacity, target, replacement))
            && (r.Some? ==>
                  var needed := before + |replacement| + |rest| - |target|;
                  && 0 < |target| && r.value + |target| <= |rest|
                  && |done| + |rest| - |target| + |replacement| <= |Replaced(all, target, replacement)|
                  && Matches(all, target) > count
                  && (needed > newCapacity ==> count == 0)
                  && (count == 0 ==> needed == |all| + |replacement| - |target| && newCapacity == capacity && recorded == |all|)
                  && Underway(all, target, replacement, done + (rest[..r.value] + replacement), rest[r.value + |target|..],
                              count + 1, before + r.value, needed, capacity, if needed > newCapacity then needed else newCapacity))
  {
    hide Progress, RecordedLength, Found, Replaced, Matches;
    ProgressStep(all, target, replacement, done, rest, count);
    RecordStep(rest, target, replacement, before, recorded);
    if Found(rest, target).Some? {
      RoomForAll(all, target, replacement, done, rest, count, Found(rest, target).value);
    }
  }

  /** The memory that holds the result holds every intermediate content. */
  lemma RoomForAll(all: seq<byte>, target: seq<byte>, replacement: seq<byte>, done: seq<byte>, rest: seq<byte>, count: nat, p: nat)
    requires Progress(all, target, replacement, done, rest, count) && |target| < |replacement| && Found(rest, target) == Some(p)
    ensures |done| + |rest| - |target| + |replacement| <= |Replaced(all, target, replacement)|
    ensures Matches(all, target) > count
  {
    hide Found, Matches, Replaced;
    ReplacedLength(rest, target, replacement);
    ReplaceStep(rest, target, replacement);
    AtLeastOnce(Matches(rest, target), |replacement| - |target|);
  }

  lemma ResultGrows(s: seq<byte>, target: seq<byte>, replacement: seq<byte>)
    requires |target| < |replacement|
    ensures |s| <= |Replaced(s, target, replacement)|
  {
    hide Found, Matches, Replaced;
    ReplacedLength(s, target, replacement);
    if 0 < Matches(s, target) {
      AtLeastOnce(Matches(s, target), |replacement| - |target|);
    }
  }

  lemma AtLeastOnce(k: nat, d: nat)
    requires 0 < k
    ensures d <= k * d
  {
  }

  lemma RecordStep(s: seq<byte>, target: seq<byte>, replacement: seq<byte>, before: nat, recorded: nat)
    ensures var r := Found(s, target);
            && (r.None? ==> RecordedLength(s, target, replacement, before, recorded) == recorded)
            && (r.Some? ==>
                  && r.value + |target| <= |s|
                  && RecordedLength(s, target, replacement, before, recorded)
                     == RecordedLength(s[r.value + |target|..], target, replacement, before + r.value,
                                       before + r.value + |replacement| + |s| - r.value - |target|))
  {
    hide Found;
    FoundFits(s, target);
  }

  /**
   * The result fits the grown buffer always with at most one match. With more, it fits exactly if the capacity was
   * there before.
   */
  lemma LargerStaysInsideIff(s: seq<byte>, capacity: nat, target: seq<byte>, replacement: seq<byte>)
    requires |target| < |replacement| && |s| <= capacity
    ensures var k := Matches(s, target);
            var fits := |Replaced(s, target, replacement)| <= GrownCapacity(|s|, capacity, target, replacement);
            if k <= 1 then fits else fits <==> |s| + k * (|replacement| - |target|) <= capacity
  {
    hide Found, Matches, Replaced;
    ReplacedLength(s, target, replacement);
    var k, d := Matches(s, target), |replacement| - |target|;
    if 2 <= k {
      ReplaceTwice(k, d);
    }
  }

  /** The content length that `mem_replace_with_larger_size` records, from `before` characters counted so far. */
  function RecordedLength(s: seq<byte>, target: seq<byte>, replacement: seq<byte>, before: nat, recorded: nat): nat
    decreases |s|
  {
    FoundFits(s, target);
    match Found(s, target)
    case None => recorded
    case Some(p) =>
      var next := |s| - p - |target|;
      RecordedLength(s[p + |target|..], target, replacement, before + p, before + p + |replacement| + next)
  }

  /** The recorded length misses all replacements but the last, and all matches. */
  lemma {:induction false} RecordedLengthIs(s: seq<byte>, target: seq<byte>, replacement: seq<byte>, before: nat, recorded: nat)
    ensures Matches(s, target) == 0 ==> RecordedLength(s, target, replacement, before, recorded) == recorded
    ensures 0 < Matches(s, target) ==>
              RecordedLength(s, target, replacement, before, recorded)
              == before + |s| + |replacement| - Matches(s, target) * |target|
    decreases |s|
  {
    hide Found;
    FoundFits(s, target);
    var r := Found(s, target);
    if r.Some? {
      var rest, p := s[r.value + |target|..], r.value;
      RecordedLengthIs(rest, target, replacement, before + p, before + p + |replacement| + |rest|);
      var k := Matches(rest, target);
      assert (1 + k) * |target| == |target| + k * |target|;
    }
  }

  /** With a longer replacement the recorded length is right exactly when there is at most one match. */
  lemma LargerLengthIff(s: seq<byte>, target: seq<byte>, replacement: seq<byte>)
    requires |target| < |replacement|
    ensures RecordedLength(s, target, replacement, 0, |s|) == |Replaced(s, target, replacement)| <==> Matches(s, target) <= 1
  {
    hide Found, Matches, Replaced, RecordedLength;
    var k, m, r := Matches(s, target), |target|, |replacement|;
    RecordedLengthIs(s, target, replacement, 0, |s|);
    ReplacedLength(s, target, replacement);
    OneReplacement(k, m, r);
  }

  lemma OneReplacement(k: nat, m: nat, r: nat)
    requires 0 < r
    ensures 0 < k ==> (r - k * m == k * (r - m) <==> k == 1)
  {
    Distributes(k, r, m);
    if 2 <= k {
      ReplaceTwice(k, r);
    }
  }

  lemma Distributes(k: nat, r: int, m: int)
    ensures k * (r - m) == k * r - k * m
  {
  }

  lemma ReplaceTwice(k: nat, r: nat)
    requires 2 <= k
    ensures 2 * r <= k * r
  {
  }

  // ----- The front end

  /** A terminating zero that is no part of the match is neither matched nor moved into one. */
  lemma FoundWithZero(s: seq<byte>, target: seq<byte>)
    requires 0 !in target
    ensures Found(s + [0], target) == Found(s, target)
  {
    if target != [] {
      forall q | 0 <= q <= |s| + 1 - |target|
        ensures OccursAt(s + [0], target, q) <==> OccursAt(s, target, q)
      {
        ZeroEndsNoMatch(s, target, q);
      }
      hide First;
      FoundIsFirst(s, target);
      FoundIsFirst(s + [0], target);
      FirstIsUnique(s + [0], target, Found(s + [0], target), Found(s, target));
    }
  }

  lemma ZeroEndsNoMatch(s: seq<byte>, target: seq<byte>, q: nat)
    requires 0 !in target && target != [] && q + |target| <= |s| + 1
    ensures OccursAt(s + [0], target, q) <==> OccursAt(s, target, q)
  {
    var window := (s + [0])[q..q + |target|];
    if q + |target| <= |s| {
      assert window == s[q..q + |target|];
    } else {
      assert window[|target| - 1] == 0 && target[|target| - 1] in target;
    }
  }

  lemma {:induction false} ReplacedWithZero(s: seq<byte>, target: seq<byte>, replacement: seq<byte>)
    requires 0 !in target
    ensures Replaced(s + [0], target, replacement) == Replaced(s, target, replacement) + [0]
    ensures Matches(s + [0], target) == Matches(s, target)
    decreases |s|
  {
    hide Found, Replaced, Matches;
    FoundWithZero(s, target);
    ReplaceStep(s, target, replacement);
    ReplaceStep(s + [0], target, replacement);
    if Found(s, target).Some? {
      var at := Found(s, target).value + |target|;
      ReplacedWithZero(s[at..], target, replacement);
      assert (s + [0])[at..] == s[at..] + [0] && (s + [0])[..at - |target|] == s[..at - |target|];
    }
  }

  /** What becomes of a string and its zero when the replacement is longer. */
  ghost predicate LargerString(s: seq<byte>, now: seq<byte>, capacity: nat, target: seq<byte>, replacement: seq<byte>, grows: bool, newLength: nat, newCapacity: int)
    requires newLength <= |now|
  {
    var result, k := Replaced(s, target, replacement), Matches(s, target);
    var fits := grows || |s| + 1 + |replacement| - |target| <= capacity;
    && (now[..newLength] == result <==> k == 0 || (k == 1 && fits))
    && (!fits ==> now[..newLength] == s)
    && newCapacity == (if 0 < k && grows && capacity < |s| + 1 + |replacement| - |target| then |s| + 1 + |replacement| - |target| else capacity)
    && (fits && 0 < k ==>
          newLength == |s| + |replacement| - k * |target| <= |result| && now[..newLength] == result[..newLength])
  }

  /** The recorded length lies inside the buffer, and is never 0. */
  lemma RecordedBounds(before: seq<byte>, now: seq<byte>, length: nat, capacity: nat, target: seq<byte>, replacement: seq<byte>,
                       grows: bool, count: int, recorded: nat, newCapacity: int)
    requires |target| < |replacement| && 0 < length <= capacity && length <= |before|
    requires LargerOutcome(before, now, length, capacity, target, replacement, grows, count, recorded, newCapacity)
    ensures 0 < recorded <= |now| && recorded <= newCapacity
  {
    hide Found, Replaced, Matches, RecordedLength;
    var s, k := before[..length], Matches(before[..length], target);
    RecordedLengthIs(s, target, replacement, 0, length);
    ReplacedLength(s, target, replacement);
    MatchesFit(s, target, replacement);
    Distributes(k, |replacement|, |target|);
    if 0 < k {
      AtLeastOnce(k, |target|);
      AtLeastOnce(k, |replacement|);
    }
  }

  lemma LargerStringIs(s: seq<byte>, before: seq<byte>, now: seq<byte>, capacity: nat, target: seq<byte>, replacement: seq<byte>,
                       grows: bool, count: int, recorded: nat, newCapacity: int)
    requires |target| < |replacement| && 0 !in target && |s| < |before| && |s| < capacity && before[..|s| + 1] == s + [0]
    requires LargerOutcome(before, now, |s| + 1, capacity, target, replacement, grows, count, recorded, newCapacity)
    requires 0 < recorded <= |now|
    ensures LargerString(s, now, capacity, target, replacement, grows, recorded - 1, newCapacity)
  {
    hide Found, Replaced, Matches, RecordedLength;
    var s0, k, result := s + [0], Matches(s, target), Replaced(s, target, replacement);
    ReplacedWithZero(s, target, replacement);
    RecordedLengthIs(s0, target, replacement, 0, |s0|);
    ReplacedLength(s, target, replacement);
    OneReplacement(k, |target|, |replacement|);
    Distributes(k, |replacement|, |target|);
    if k == 0 || (capacity < |s0| + |replacement| - |target| && !grows) {
      assert now[..|s|] == s0[..|s|] == s;
      if k == 0 {
        ReplaceStep(s, target, replacement);
      } else {
        AtLeastOnce(k, |replacement| - |target|);
      }
    } else {
      AtLeastOnce(k, |replacement|);
      FrontOfString(now, result, recorded - 1);
    }
  }

  lemma NothingToReplace(s: seq<byte>, now: seq<byte>, capacity: nat, target: seq<byte>, replacement: seq<byte>, grows: bool)
    requires (s == [] || target == []) && |s| <= |now| && now[..|s|] == s
    ensures Matches(s, target) == 0 && Replaced(s, target, replacement) == s
    ensures LargerString(s, now, capacity, target, replacement, grows, |s|, capacity)
  {
    FoundFits(s, target);
  }

  /** Only the string in front of its zero matters. */
  lemma SameString(s: seq<byte>, m: seq<byte>, now: seq<byte>, capacity: nat, target: seq<byte>, replacement: seq<byte>, grows: bool, n: nat, newCapacity: int)
    requires n <= |m| && n <= |now| && m[..n] == now[..n]
    requires LargerString(s, m, capacity, target, replacement, grows, n, newCapacity)
    ensures LargerString(s, now, capacity, target, replacement, grows, n, newCapacity)
  {
    hide Replaced, Matches;
  }

  lemma FrontOfString(now: seq<byte>, result: seq<byte>, n: nat)
    requires |result| + 1 <= |now| && now[..|result| + 1] == result + [0] && n <= |result|
    ensures now[..n] == result[..n] && (now[..n] == result <==> n == |result|)
  {
    assert now[..n] == now[..|result| + 1][..n];
  }

  /** The matches do not overlap. */
  lemma {:induction false} MatchesFit(s: seq<byte>, target: seq<byte>, replacement: seq<byte>)
    ensures Matches(s, target) * |target| <= |s|
    decreases |s|
  {
    hide Found, Matches;
    ReplaceStep(s, target, replacement);
    if Found(s, target).Some? {
      var rest := s[Found(s, target).value + |target|..];
      MatchesFit(rest, target, replacement);
      Distributes(|target|, Matches(rest, target), -1);
    }
  }

  /** `mem_replace` for a string and a longer replacement: the terminating zero counts as content. */
  method ReplaceLargerString(memory: array<byte>, length: nat, capacity: nat, target: seq<byte>, replacement: seq<byte>, grows: bool, twoWay: bool)
    returns (newLength: nat, newCapacity: int)
    requires length < capacity <= memory.Length && memory[length] == 0 && |target| < |replacement|
    requires |Replaced(memory[..length + 1], target, replacement)| <= memory.Length
    modifies memory
    ensures newLength < newCapacity && newLength < memory.Length
    ensures 0 !in target ==> LargerString(old(memory[..length]), memory[..], capacity, target, replacement, grows, newLength, newCapacity)
  {
    hide Replaced, Matches, Found, LargerString, LargerOutcome;
    ghost var before, s := memory[..], memory[..length];
    assert before[..length + 1] == s + [0] == memory[..length + 1];
    var count, recorded;
    count, recorded, newCapacity := ReplaceLarger(memory, length + 1, capacity, target, replacement, grows, twoWay);
    RecordedBounds(before, memory[..], length + 1, capacity, target, replacement, grows, count, recorded, newCapacity);
    newLength := recorded - 1;
    if 0 !in target {
      LargerStringIs(s, before, memory[..], capacity, target, replacement, grows, count, recorded, newCapacity);
    }
  }

  /**
   * `String::replace` on a string of `length` characters and a zero, in a buffer of `capacity` bytes. When the
   * replacement is not longer, the result is the specified one, except that a string without a match becomes empty when
   * the replacement is shorter. When it is longer, the result is the specified one exactly with no match, or with one
   * and a buffer that can hold it or grow; with more matches it is cut to the recorded length.
   */
  method ReplaceString(memory: array<byte>, length: nat, capacity: nat, target: seq<byte>, replacement: seq<byte>, grows: bool, twoWay: bool)
    returns (newLength: nat, newCapacity: int)
    requires length < capacity <= memory.Length && memory[length] == 0
    requires |target| < |replacement| ==> |Replaced(memory[..length + 1], target, replacement)| <= memory.Length
    modifies memory
    ensures newLength < newCapacity && newLength < memory.Length && memory[newLength] == 0
    ensures |replacement| <= |target| ==>
              var s := old(memory[..length]);
              && newCapacity == capacity
              && (|replacement| == |target| || 0 < Matches(s, target) ==> memory[..newLength] == Replaced(s, target, replacement))
              && (|replacement| < |target| && Matches(s, target) == 0 ==> newLength == 0 && Replaced(s, target, replacement) == s)
              && (memory[..newLength] == Replaced(s, target, replacement)
                  <==> |replacement| == |target| || 0 < Matches(s, target) || length == 0)
    ensures |target| < |replacement| && 0 !in target ==>
              LargerString(old(memory[..length]), memory[..], capacity, target, replacement, grows, newLength, newCapacity)
  {
    hide Replaced, Matches, Found, LargerString, LargerOutcome;
    ghost var s := memory[..length];
    newLength, newCapacity := length, capacity;
    ReplaceStep(s, target, replacement);
    if length == 0 || |target| == 0 {
      NothingToReplace(s, memory[..], capacity, target, replacement, grows);
      return;
    }
    if |replacement| == |target| {
      var _ := ReplaceSameSize(memory, length, target, replacement, twoWay);
    } else if |replacement| < |target| {
      var count: nat;
      count, newLength := ReplaceSmaller(memory, length, target, replacement, twoWay);
    } else {
      newLength, newCapacity := ReplaceLargerString(memory, length, capacity, target, replacement, grows, twoWay);
    }
    ghost var m := memory[..];
    memory[newLength] := 0;
    assert memory[..newLength] == m[..newLength];
    if |target| < |replacement| && 0 !in target {
      SameString(s, m, memory[..], capacity, target, replacement, grows, newLength, newCapacity);
    }
  }
}
