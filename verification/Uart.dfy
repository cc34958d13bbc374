// The receive path of drivers/uart.c, with the unsigned arithmetic of its static variables.
module Uart {
  import opened Common
  import opened UartFifo
  import opened Arithmetic

  const RX_BUFFER_SIZE := 128
  const USER_AREA_LIMIT := 64
  const UDMA_AREA_SIZE := 64
  const UDMA_START_IDX := 64

  /** `user_head` when no byte is unread: -1 in a `uint32_t`. */
  const EMPTY := 0xFFFF_FFFF

  /** Where in the uDMA area the hardware puts the `i`-th byte after counter value `last`. */
  function Slot(last: nat, i: nat): (r: nat)
    ensures r < UDMA_AREA_SIZE
  {
    (last + i) % UDMA_AREA_SIZE
  }

  /** The bytes `from..` of `bytes` are where the hardware puts them. */
  ghost predicate Staged(buffer: seq<byte>, last: nat, bytes: seq<byte>, from: nat)
  {
    |buffer| == RX_BUFFER_SIZE
    && forall i {:trigger bytes[i]} :: from <= i < |bytes| ==> buffer[UDMA_START_IDX + Slot(last, i)] == bytes[i]
  }

  /** The first byte that the circular area has not overwritten. */
  function Oldest(pending: seq<byte>): nat
  {
    if |pending| < UDMA_AREA_SIZE then 0 else |pending| - UDMA_AREA_SIZE
  }

  /** The last `room` bytes of the queue. */
  function Newer(q: seq<byte>, room: nat): seq<byte>
  {
    if |q| <= room then q else q[|q| - room..]
  }

  class Receiver {
    /** Bytes 0..63 are the user area, bytes 64..127 the circular area of the uDMA. */
    const rxBuffer: array<byte>
    var userHead: int
    var userTail: int
    var lastHwCount: int
    /** What the SIZE register of the uDMA channel says: it counts down from 64 to 1 and restarts. */
    var sizeRegister: int
    /** The unread bytes, and the bytes in the uDMA area that no poll has seen. */
    ghost var queue: seq<byte>
    ghost var pending: seq<byte>

    ghost predicate UserArea()
      reads `userHead, `userTail, `queue, rxBuffer
    {
      && rxBuffer.Length == RX_BUFFER_SIZE
      && if userHead == EMPTY then userTail == 0 && queue == []
         else 0 <= userTail <= userHead < USER_AREA_LIMIT && queue == rxBuffer[userTail..userHead + 1]
    }

    /** The hardware has written the pending bytes, the newest last, where the counters say. */
    ghost predicate UdmaArea()
      reads `lastHwCount, `sizeRegister, `pending, rxBuffer
    {
      && 0 <= lastHwCount < UDMA_AREA_SIZE && 1 <= sizeRegister <= UDMA_AREA_SIZE
      && UDMA_AREA_SIZE - sizeRegister == Slot(lastHwCount, |pending|)
      && Staged(rxBuffer[..], lastHwCount, pending, Oldest(pending))
    }

    ghost predicate Valid()
      reads this, rxBuffer
    {
      UserArea() && UdmaArea()
    }

    /** `uart_open`: the software state and the uDMA transfer start afresh. */
    constructor ()
      ensures Valid() && queue == [] && pending == [] && fresh(rxBuffer)
    {
      rxBuffer := new byte[RX_BUFFER_SIZE](_ => 0);
      userHead, userTail, lastHwCount, sizeRegister := EMPTY, 0, 0, UDMA_AREA_SIZE;
      queue, pending := [], [];
    }

    /** While a poll runs: the first `i` bytes are taken out, the others are staged, and fewer than 64 are. */
    ghost predicate InFlight(i: nat)
      reads `lastHwCount, `sizeRegister, `pending, rxBuffer
    {
      && 0 <= lastHwCount < UDMA_AREA_SIZE && 1 <= sizeRegister <= UDMA_AREA_SIZE
      && UDMA_AREA_SIZE - sizeRegister == Slot(lastHwCount, |pending|)
      && i <= |pending| < i + UDMA_AREA_SIZE && Staged(rxBuffer[..], lastHwCount, pending, i)
    }

    /** The hardware receives a byte: environment, not code of the driver. */
    method Arrive(b: byte)
      requires Valid()
      modifies this`sizeRegister, this`pending, rxBuffer
      ensures Valid() && queue == old(queue) && pending == old(pending) + [b]
    {
      ArrivalStaged(rxBuffer[..], lastHwCount, pending, Oldest(pending), Oldest(pending + [b]), b);
      hide Staged, Slot;
      ghost var before := rxBuffer[..];
      rxBuffer[UDMA_START_IDX + (UDMA_AREA_SIZE - sizeRegister)] := b;
      assert rxBuffer[..] == before[UDMA_START_IDX + (UDMA_AREA_SIZE - sizeRegister) := b];
      sizeRegister := if sizeRegister == 1 then UDMA_AREA_SIZE else sizeRegister - 1;
      pending := pending + [b];
    }

    /** Any bytes arrive between two steps of a poll, while fewer than 64 are outstanding: environment. */
    method Meanwhile(i: nat)
      requires InFlight(i)
      modifies this`sizeRegister, this`pending, rxBuffer
      ensures InFlight(i) && old(pending) <= pending
      ensures rxBuffer.Length == RX_BUFFER_SIZE && rxBuffer[..USER_AREA_LIMIT] == old(rxBuffer[..USER_AREA_LIMIT])
      ensures old(UserArea()) ==> UserArea()
    {
      hide Staged, Slot;
      var n: nat :| true;
      StagedLength(rxBuffer[..], lastHwCount, pending, i);
      ghost var area := rxBuffer[..USER_AREA_LIMIT];
      assert UserArea() && userHead != EMPTY ==> queue == area[userTail..userHead + 1];
      for _ := 0 to n
        invariant InFlight(i) && old(pending) <= pending && rxBuffer.Length == RX_BUFFER_SIZE
        invariant rxBuffer[..USER_AREA_LIMIT] == old(rxBuffer[..USER_AREA_LIMIT])
      {
        Outstanding(lastHwCount, |pending|, i);
        if (UDMA_AREA_SIZE - sizeRegister - lastHwCount - i) % UDMA_AREA_SIZE < UDMA_AREA_SIZE - 1 {
          var b: byte := *;
          ArrivalStaged(rxBuffer[..], lastHwCount, pending, i, i, b);
          ghost var before := rxBuffer[..];
          rxBuffer[UDMA_START_IDX + (UDMA_AREA_SIZE - sizeRegister)] := b;
          assert rxBuffer[..] == before[UDMA_START_IDX + (UDMA_AREA_SIZE - sizeRegister) := b];
          assert rxBuffer[..USER_AREA_LIMIT] == before[..USER_AREA_LIMIT];
          sizeRegister := if sizeRegister == 1 then UDMA_AREA_SIZE else sizeRegister - 1;
          pending := pending + [b];
        }
      }
      assert old(UserArea()) && userHead != EMPTY ==> rxBuffer[userTail..userHead + 1] == area[userTail..userHead + 1];
    }

    method MoveByte(i: nat, shift: nat)
      requires InFlight(0) && i + shift < USER_AREA_LIMIT && rxBuffer.Length == RX_BUFFER_SIZE
      modifies rxBuffer
      ensures InFlight(0)
      ensures rxBuffer[..USER_AREA_LIMIT] == old(rxBuffer[..USER_AREA_LIMIT])[i := old(rxBuffer[..USER_AREA_LIMIT])[i + shift]]
    {
      hide Slot, Staged;
      ghost var before, user := rxBuffer[..], rxBuffer[..USER_AREA_LIMIT];
      rxBuffer[i] := rxBuffer[i + shift];
      SameUdmaArea(before, rxBuffer[..], lastHwCount, pending, 0);
    }

    lemma BufferLength(i: nat)
      requires InFlight(i)
      ensures rxBuffer.Length == RX_BUFFER_SIZE
    {
      StagedLength(rxBuffer[..], lastHwCount, pending, i);
    }

    /** The loop that moves `n` bytes of the user area `shift` places to the left. */
    method ShiftLeft(n: int, shift: int)
      requires InFlight(0) && 0 <= n && 0 < shift && n + shift <= USER_AREA_LIMIT
      modifies this`sizeRegister, this`pending, rxBuffer
      ensures InFlight(0) && old(pending) <= pending && rxBuffer.Length == RX_BUFFER_SIZE
      ensures rxBuffer[..n] == old(rxBuffer[..USER_AREA_LIMIT])[shift..n + shift]
    {
      hide Slot, Staged, UserArea, InFlight;
      BufferLength(0);
      ghost var area := rxBuffer[..USER_AREA_LIMIT];
      for i := 0 to n
        invariant InFlight(0) && old(pending) <= pending
        invariant rxBuffer[..USER_AREA_LIMIT] == area[shift..i + shift] + area[i..]
      {
        ShiftStep(area, shift, i);
        MoveByte(i, shift);
        Meanwhile(0);
      }
      ShiftDone(rxBuffer[..], area, shift, n);
    }

    /** The loop that moves `count` bytes from the uDMA area to the user area and clears where they were. */
    method CopyNew(writePosition: int, count: int)
      requires InFlight(0) && 0 <= writePosition && 0 < count <= |pending| && writePosition + count <= USER_AREA_LIMIT
      modifies this`sizeRegister, this`pending, rxBuffer
      ensures InFlight(count) && old(pending) <= pending && rxBuffer.Length == RX_BUFFER_SIZE
      ensures rxBuffer[..writePosition + count] == old(rxBuffer[..writePosition]) + old(pending[..count])
    {
      hide Slot, Staged;
      StagedLength(rxBuffer[..], lastHwCount, pending, 0);
      ghost var area, newest := rxBuffer[..writePosition], pending[..count];
      for i := 0 to count
        invariant InFlight(i) && old(pending) <= pending
        invariant rxBuffer[..writePosition + i] == area + newest[..i]
      {
        var udmaIdx := UDMA_START_IDX + (lastHwCount + i) % UDMA_AREA_SIZE;
        StagedByte(rxBuffer[..], lastHwCount, pending, i, writePosition + i);
        ghost var before := rxBuffer[..];
        if writePosition + i < USER_AREA_LIMIT {
          rxBuffer[writePosition + i] := rxBuffer[udmaIdx];
          rxBuffer[udmaIdx] := 0;
        }
        assert rxBuffer[..] == before[writePosition + i := newest[i]][udmaIdx := 0];
        assert rxBuffer[..writePosition + i + 1] == rxBuffer[..writePosition + i] + [newest[i]];
        assert rxBuffer[..writePosition + i] == before[..writePosition + i];
        ghost var now := rxBuffer[..USER_AREA_LIMIT];
        assert now[..writePosition + i + 1] == rxBuffer[..writePosition + i + 1];
        Meanwhile(i + 1);
        assert rxBuffer[..writePosition + i + 1] == rxBuffer[..USER_AREA_LIMIT][..writePosition + i + 1];
      }
    }

    /** When `count` more bytes do not fit behind `user_head`, the user area is shifted left over its oldest bytes. */
    method MakeRoom(count: int)
      requires UserArea() && InFlight(0) && 0 < count < UDMA_AREA_SIZE
      modifies this`userHead, this`userTail, this`queue, this`sizeRegister, this`pending, rxBuffer
      ensures UserArea() && InFlight(0) && old(pending) <= pending && U32(userHead + 1) + count <= USER_AREA_LIMIT
      ensures queue == Newer(old(queue), USER_AREA_LIMIT - count)
    {
      hide Slot, Staged, Newer, InFlight;
      NewerAll(queue, USER_AREA_LIMIT - count);
      var remaining := U32(USER_AREA_LIMIT - 1 - userHead);
      if count > remaining {
        ShiftOut(count - remaining);
      }
    }

    /** The shift over the oldest `shift` bytes of the user area. */
    method ShiftOut(shift: int)
      requires UserArea() && InFlight(0) && userHead != EMPTY && 0 < shift <= userHead
      modifies this`userHead, this`userTail, this`queue, this`sizeRegister, this`pending, rxBuffer
      ensures UserArea() && InFlight(0) && old(pending) <= pending && userHead == old(userHead) - shift
      ensures queue == Newer(old(queue), userHead + 1)
    {
      hide Slot, Staged, Newer, InFlight;
      ghost var before := rxBuffer[..USER_AREA_LIMIT];
      assert queue == before[userTail..userHead + 1];
      // always taken: the variable is unsigned, and an empty area has room for 64 bytes
      if userHead >= 0 {
        var bytesToMove := U32(userHead - shift + 1);
        if bytesToMove > 0 {
          ShiftLeft(bytesToMove, shift);
          userHead := U32(userHead - shift);
        } else {
          // the branch that sets user_head to -1: 64 - count bytes always remain
          assert false;
        }
        ShiftedQueue(before, rxBuffer[..], userTail, old(userHead), shift);
        if userTail >= shift {
          userTail := userTail - shift;
        } else {
          userTail := 0;
        }
        queue := rxBuffer[userTail..userHead + 1];
      }
    }

    /** The bytes the hardware wrote since the last poll are appended behind `user_head`. */
    method Drain(count: int)
      requires UserArea() && InFlight(0) && 0 < count <= |pending| && U32(userHead + 1) + count <= USER_AREA_LIMIT
      modifies this`userHead, this`queue, this`sizeRegister, this`pending, rxBuffer
      ensures UserArea() && InFlight(count) && old(pending) <= pending && queue == old(queue) + old(pending[..count])
    {
      hide Slot, Staged;
      ghost var newest := pending[..count];
      CopyNew(U32(userHead + 1), count);
      queue := queue + newest;
      userHead := U32(userHead + count);
      // never more: room was made before
      userHead := if userHead >= USER_AREA_LIMIT then USER_AREA_LIMIT - 1 else userHead;
    }

    /** The bytes of one poll join the queue, and the oldest leave it when the user area is full. */
    method Fetch(count: int)
      requires UserArea() && InFlight(0) && 0 < count <= |pending| && count < UDMA_AREA_SIZE
      modifies this`userHead, this`userTail, this`queue, this`sizeRegister, this`pending, rxBuffer
      ensures UserArea() && InFlight(count) && old(pending) <= pending && queue == Last(old(queue) + old(pending[..count]))
    {
      hide U32, Last, Staged, Slot, UserArea, Newer;
      UnreadCount();
      RoomThenAppend(queue, pending[..count]);
      MakeRoom(count);
      assert pending[..count] == old(pending[..count]);
      Drain(count);
    }

    /**
     * `uart_available`: one poll of the hardware counter, and the number of unread bytes after it. Whatever arrives
     * while the poll runs is left pending, and does not disturb it as long as fewer than 64 bytes are outstanding.
     */
    method Available() returns (n: int)
      requires Valid()
      modifies this, rxBuffer
      ensures Valid() && |pending| < UDMA_AREA_SIZE
      ensures queue == Polled(old(queue), old(pending)) && n == |queue|
    {
      hide U32, UserArea, Newest, Last, Staged, Polled, Slot, Oldest;
      var currentHwCount := UDMA_AREA_SIZE - sizeRegister;
      NewestStaged();
      UnreadCount();
      PolledIsLast(queue, pending);
      NothingNew(queue, pending);
      pending := Newest(pending);
      ghost var newest, taken := pending, |pending|;
      Meanwhile(0);
      assert pending[..taken] == newest;
      if currentHwCount != lastHwCount {
        var count := U32(U32(currentHwCount - lastHwCount) + UDMA_AREA_SIZE) % UDMA_AREA_SIZE;
        Fetch(count);
      }
      Rebase(rxBuffer[..], lastHwCount, pending, taken);
      lastHwCount := currentHwCount;
      pending := pending[taken..];
      UnreadCount();
      n := U32(userHead - userTail + 1);
    }

    /** `uart_peek`: the oldest unread byte after a poll, or -1. */
    method Peek() returns (r: int)
      requires Valid()
      modifies this, rxBuffer
      ensures Valid() && |pending| < UDMA_AREA_SIZE && queue == Polled(old(queue), old(pending))
      ensures r == if queue == [] then -1 else queue[0]
    {
      hide UdmaArea, Polled;
      var n := Available();
      if n == 0 {
        return -1;
      }
      return rxBuffer[userTail];
    }

    /** `uart_read`: after a poll the oldest unread byte leaves the queue; -1 if there is none. */
    method Read() returns (r: int)
      requires Valid()
      modifies this, rxBuffer
      ensures Valid() && |pending| < UDMA_AREA_SIZE
      ensures var q := Polled(old(queue), old(pending));
              if q == [] then r == -1 && queue == [] else r == q[0] && queue == q[1..]
    {
      hide Polled, Staged, Slot, U32, Oldest;
      var n := Available();
      if n <= 0 {
        return -1;
      }
      RemoveFirst();
      var data := rxBuffer[userTail];
      ghost var before := rxBuffer[..];
      rxBuffer[userTail] := 0;
      SameUdmaArea(before, rxBuffer[..], lastHwCount, pending, Oldest(pending));
      queue := queue[1..];
      if userTail < userHead {
        userTail := userTail + 1;
      } else {
        userHead := EMPTY;
        userTail := 0;
      }
      return data;
    }

    lemma RemoveFirst()
      requires UserArea() && queue != []
      ensures 0 <= userTail <= userHead < USER_AREA_LIMIT && rxBuffer.Length == RX_BUFFER_SIZE && rxBuffer[userTail] == queue[0]
      ensures rxBuffer[userTail + 1..userHead + 1] == queue[1..]
    {
    }

    lemma UnreadCount()
      requires UserArea()
      ensures U32(userHead - userTail + 1) == |queue| <= USER_AREA_LIMIT && rxBuffer.Length == RX_BUFFER_SIZE
    {
    }

    /** The newest bytes, as many as the counters tell, are where the driver looks for them. */
    lemma NewestStaged()
      requires UdmaArea()
      ensures Staged(rxBuffer[..], lastHwCount, Newest(pending), 0)
      ensures var current := UDMA_AREA_SIZE - sizeRegister;
              && 0 <= lastHwCount < UDMA_AREA_SIZE && 0 <= current < UDMA_AREA_SIZE
              && U32(U32(current - lastHwCount) + UDMA_AREA_SIZE) % UDMA_AREA_SIZE == |pending| % UDMA_AREA_SIZE
              && (current == lastHwCount <==> |pending| % UDMA_AREA_SIZE == 0)
              && current == Slot(lastHwCount, |Newest(pending)|)
    {
      hide U32, Slot, Staged, Newest;
      CounterDifference(lastHwCount, UDMA_AREA_SIZE - sizeRegister, |pending|);
      NewestIsStaged(rxBuffer[..], lastHwCount, pending);
    }
  }

  /** The newest bytes, as many as the counters tell, are where the driver looks for them. */
  lemma NewestIsStaged(buffer: seq<byte>, last: nat, pending: seq<byte>)
    requires Staged(buffer, last, pending, Oldest(pending))
    ensures Staged(buffer, last, Newest(pending), 0) && Slot(last, |Newest(pending)|) == Slot(last, |pending|)
  {
    hide Slot;
    SameSlot(last, |pending|, |pending| % UDMA_AREA_SIZE);
    var from := |pending| - |pending| % UDMA_AREA_SIZE;
    forall i | 0 <= i < |pending| % UDMA_AREA_SIZE
      ensures buffer[UDMA_START_IDX + Slot(last, i)] == Newest(pending)[i]
    {
      SameSlot(last, |pending|, i);
      assert Newest(pending)[i] == pending[from + i];
    }
  }

  /** A byte arrives while no staged one is as old as a whole round. */
  lemma ArrivalStaged(buffer: seq<byte>, last: nat, pending: seq<byte>, from: nat, from': nat, b: byte)
    requires Staged(buffer, last, pending, from) && from <= from' && |pending| < from' + UDMA_AREA_SIZE
    ensures |buffer| == RX_BUFFER_SIZE
    ensures Staged(buffer[UDMA_START_IDX + Slot(last, |pending|) := b], last, pending + [b], from')
    ensures Slot(last, |pending| + 1) == if Slot(last, |pending|) == UDMA_AREA_SIZE - 1 then 0 else Slot(last, |pending|) + 1
  {
    forall i | from' <= i < |pending|
      ensures Slot(last, i) != Slot(last, |pending|) && buffer[UDMA_START_IDX + Slot(last, i)] == (pending + [b])[i]
    {
      assert (pending + [b])[i] == pending[i];
      SlotsDiffer(last, i, |pending|);
    }
  }

  /** How many bytes are outstanding, from the registers. */
  lemma Outstanding(last: nat, arrived: nat, i: nat)
    requires i <= arrived < i + UDMA_AREA_SIZE
    ensures (Slot(last, arrived) - last - i) % UDMA_AREA_SIZE == arrived - i
  {
    var q := (last + arrived) / UDMA_AREA_SIZE;
    assert Slot(last, arrived) - last - i == arrived - i - q * UDMA_AREA_SIZE;
  }

  /** Counted from the new counter value on, what is left after `taken` bytes are staged as before. */
  lemma Rebase(buffer: seq<byte>, last: nat, pending: seq<byte>, taken: nat)
    requires Staged(buffer, last, pending, taken) && taken <= |pending| < taken + UDMA_AREA_SIZE
    ensures Staged(buffer, Slot(last, taken), pending[taken..], 0) && Oldest(pending[taken..]) == 0
    ensures Slot(Slot(last, taken), |pending| - taken) == Slot(last, |pending|)
  {
    SlotOfSlot(last, taken, |pending| - taken);
    forall i | 0 <= i < |pending| - taken
      ensures buffer[UDMA_START_IDX + Slot(Slot(last, taken), i)] == pending[taken..][i]
    {
      SlotOfSlot(last, taken, i);
      assert pending[taken..][i] == pending[taken + i];
    }
  }

  lemma SlotOfSlot(last: nat, a: nat, i: nat)
    ensures Slot(Slot(last, a), i) == Slot(last, a + i)
  {
  }

  lemma ShiftStep(area: seq<byte>, shift: nat, i: nat)
    requires 0 < shift && i + shift < |area|
    ensures var user := area[shift..i + shift] + area[i..];
            |user| == |area| && user[i := user[i + shift]] == area[shift..i + 1 + shift] + area[i + 1..]
  {
  }

  lemma ShiftDone(buffer: seq<byte>, area: seq<byte>, shift: nat, n: nat)
    requires n + shift <= |area| && |area| <= |buffer| && buffer[..|area|] == area[shift..n + shift] + area[n..]
    ensures buffer[..n] == area[shift..n + shift]
  {
    assert buffer[..n] == buffer[..|area|][..n];
  }

  /** What is left of the queue when the user area moves left by `shift`. */
  lemma ShiftedQueue(before: seq<byte>, now: seq<byte>, tail: nat, head: nat, shift: nat)
    requires tail <= head < |before| && 0 < shift <= head && head - shift < |now|
    requires now[..head - shift + 1] == before[shift..head + 1]
    ensures now[if tail >= shift then tail - shift else 0..head - shift + 1] == Newer(before[tail..head + 1], head - shift + 1)
  {
    var t := if tail >= shift then tail - shift else 0;
    assert now[t..head - shift + 1] == before[shift..head + 1][t..];
    assert before[shift..head + 1][t..] == before[t + shift..head + 1];
  }

  lemma NewerAll(q: seq<byte>, room: nat)
    ensures |q| <= room ==> Newer(q, room) == q
  {
  }

  lemma StagedLength(buffer: seq<byte>, last: nat, bytes: seq<byte>, from: nat)
    requires Staged(buffer, last, bytes, from)
    ensures |buffer| == RX_BUFFER_SIZE
  {
  }

  /** Taking byte `i` out and writing left of the uDMA area leaves the later bytes staged. */
  lemma StagedByte(buffer: seq<byte>, last: nat, bytes: seq<byte>, i: nat, w: nat)
    requires Staged(buffer, last, bytes, i) && i < |bytes| < i + UDMA_AREA_SIZE && w < USER_AREA_LIMIT
    ensures UDMA_START_IDX + (last + i) % UDMA_AREA_SIZE < |buffer| == RX_BUFFER_SIZE
    ensures buffer[UDMA_START_IDX + (last + i) % UDMA_AREA_SIZE] == bytes[i]
    ensures Staged(buffer[w := bytes[i]][UDMA_START_IDX + (last + i) % UDMA_AREA_SIZE := 0], last, bytes, i + 1)
  {
    forall k | i < k < |bytes|
      ensures Slot(last, k) != Slot(last, i) && buffer[UDMA_START_IDX + Slot(last, k)] == bytes[k]
    {
      SlotsDiffer(last, i, k);
    }
  }

  lemma SlotsDiffer(last: nat, i: nat, k: nat)
    requires i < k < i + UDMA_AREA_SIZE
    ensures Slot(last, i) != Slot(last, k)
  {
  }

  /** Writing in the user area leaves the uDMA area alone. */
  lemma SameUdmaArea(before: seq<byte>, now: seq<byte>, last: nat, bytes: seq<byte>, from: nat)
    requires Staged(before, last, bytes, from) && |now| == |before|
    requires forall k :: UDMA_START_IDX <= k < |before| ==> now[k] == before[k]
    ensures Staged(now, last, bytes, from)
  {
    hide Slot;
  }

  /** The counters differ by the number of arrived bytes modulo 64, through the unsigned arithmetic. */
  lemma CounterDifference(last: int, current: int, arrived: nat)
    requires 0 <= last < UDMA_AREA_SIZE && 0 <= current < UDMA_AREA_SIZE
    requires current == Slot(last, arrived)
    ensures U32(U32(current - last) + UDMA_AREA_SIZE) % UDMA_AREA_SIZE == arrived % UDMA_AREA_SIZE
    ensures current == last <==> arrived % UDMA_AREA_SIZE == 0
  {
  }

  lemma RoomThenAppend(q: seq<byte>, newest: seq<byte>)
    requires |q| <= AREA && |newest| < AREA
    ensures Last(q + newest) == Newer(q, AREA - |newest|) + newest
  {
  }

  lemma PolledIsLast(q: seq<byte>, pending: seq<byte>)
    ensures Polled(q, pending) == Last(q + Newest(pending))
  {
  }

  lemma NothingNew(q: seq<byte>, pending: seq<byte>)
    requires |q| <= AREA
    ensures |pending| % AREA == 0 ==> Newest(pending) == [] && Polled(q, pending) == q
  {
    assert |pending| % AREA == 0 ==> q + Newest(pending) == q;
  }

  lemma SameSlot(last: nat, arrived: nat, i: nat)
    ensures Slot(last, i) == Slot(last, arrived - arrived % UDMA_AREA_SIZE + i)
  {
  }
}
