// What the UART receive path of drivers/uart.c does to the stream of received bytes.
module UartFifo {
  import opened Common

  const AREA := 64

  /** The last 64 bytes. */
  function Last(s: seq<byte>): (r: seq<byte>)
    ensures |r| == if |s| <= AREA then |s| else AREA
  {
    if |s| <= AREA then s else s[|s| - AREA..]
  }

  /** The received bytes that a poll can tell from the hardware counter, which wraps at 64. */
  function Newest(pending: seq<byte>): (r: seq<byte>)
    ensures |r| == |pending| % AREA
  {
    pending[|pending| - |pending| % AREA..]
  }

  /** The unread bytes after a poll. */
  function Polled(queue: seq<byte>, pending: seq<byte>): (r: seq<byte>)
    ensures |r| <= AREA
  {
    Last(queue + Newest(pending))
  }

  /** While fewer than 64 bytes arrive between polls, a poll is a queue that drops its oldest bytes. */
  lemma PollDropsOldest(queue: seq<byte>, pending: seq<byte>)
    requires |pending| < AREA
    ensures Polled(queue, pending) == Last(queue + pending)
  {
    assert Newest(pending) == pending;
  }

  /** In numbers: of what was unread and the newest `|pending|` modulo 64 bytes the last 64 stay. */
  lemma PollKeepsLast64(queue: seq<byte>, pending: seq<byte>)
    ensures var all := queue + pending[|pending| - |pending| % 64..];
            Polled(queue, pending) == if |all| <= 64 then all else all[|all| - 64..]
  {
  }

  /** A poll loses nothing exactly if fewer than 64 bytes arrived and everything fits the user area. */
  lemma PollLosslessIff(queue: seq<byte>, pending: seq<byte>)
    ensures Polled(queue, pending) == queue + pending <==> |pending| < 64 && |queue| + |pending| <= 64
  {
    if |pending| < AREA && |queue| + |pending| <= AREA {
      PollDropsOldest(queue, pending);
    } else {
      assert |Polled(queue, pending)| < |queue + pending|;
    }
  }

  // ----- Runs

  /** Unread bytes, bytes not yet polled, and the two histories. */
  datatype Rx = Rx(queue: seq<byte>, pending: seq<byte>, arrived: seq<byte>, delivered: seq<byte>)

  /** A byte arrives; `uart_available` or `uart_peek` polls; `uart_read` polls and takes a byte. */
  datatype Event = Arrive(b: byte) | Poll | Read

  function Step(s: Rx, e: Event): Rx
  {
    match e
    case Arrive(b) => s.(pending := s.pending + [b], arrived := s.arrived + [b])
    case Poll => s.(queue := Polled(s.queue, s.pending), pending := [])
    case Read =>
      var q := Polled(s.queue, s.pending);
      if q == [] then s.(queue := [], pending := [])
      else s.(queue := q[1..], pending := [], delivered := s.delivered + [q[0]])
  }

  /** The state after a run from `uart_open`. */
  function After(es: seq<Event>): Rx
  {
    if es == [] then Rx([], [], [], []) else Step(After(es[..|es| - 1]), es[|es| - 1])
  }

  /** Never 64 bytes or more between two polls. */
  predicate Attentive(es: seq<Event>)
  {
    es != [] ==> Attentive(es[..|es| - 1]) && |After(es[..|es| - 1]).pending| < AREA
  }

  /** No event finds more unread and pending bytes than the user area holds. */
  predicate NoOverflow(es: seq<Event>)
  {
    es != [] ==>
      && NoOverflow(es[..|es| - 1])
      && |After(es[..|es| - 1]).pending| < AREA
      && (es[|es| - 1].Arrive? || |After(es[..|es| - 1]).queue| + |After(es[..|es| - 1]).pending| <= AREA)
  }

  ghost predicate Suffix(s: seq<byte>, t: seq<byte>)
  {
    |s| <= |t| && t[|t| - |s|..] == s
  }

  lemma LastIsSuffix(s: seq<byte>, t: seq<byte>)
    requires Suffix(s, t)
    ensures Suffix(Last(s), t)
    ensures Last(s) != [] ==> Suffix(Last(s)[1..], t)
  {
  }

  lemma StepKeepsSuffix(s: Rx, e: Event)
    requires |s.pending| < AREA && Suffix(s.queue + s.pending, s.arrived)
    ensures Suffix(Step(s, e).queue + Step(s, e).pending, Step(s, e).arrived)
  {
    match e
    case Arrive(b) =>
      assert s.queue + (s.pending + [b]) == s.queue + s.pending + [b];
    case _ =>
      PollDropsOldest(s.queue, s.pending);
      LastIsSuffix(s.queue + s.pending, s.arrived);
      assert Step(s, e).queue + [] == Step(s, e).queue;
  }

  /** In every attentive run what is unread is the most recent part of what arrived. */
  lemma {:induction false} UnreadIsMostRecent(es: seq<Event>)
    requires Attentive(es)
    ensures Suffix(After(es).queue + After(es).pending, After(es).arrived)
  {
    if es != [] {
      UnreadIsMostRecent(es[..|es| - 1]);
      StepKeepsSuffix(After(es[..|es| - 1]), es[|es| - 1]);
    }
  }

  function Stream(s: Rx): seq<byte>
  {
    s.delivered + (s.queue + s.pending)
  }

  lemma StepKeepsStream(s: Rx, e: Event)
    requires Stream(s) == s.arrived && |s.pending| < AREA
    requires e.Arrive? || |s.queue| + |s.pending| <= AREA
    ensures Stream(Step(s, e)) == Step(s, e).arrived
  {
    var q := s.queue + s.pending;
    match e
    case Arrive(b) =>
      assert s.delivered + (s.queue + (s.pending + [b])) == s.delivered + q + [b];
    case Poll =>
      PollLosslessIff(s.queue, s.pending);
      assert q + [] == q;
    case Read =>
      PollLosslessIff(s.queue, s.pending);
      if q != [] {
        assert s.delivered + [q[0]] + (q[1..] + []) == s.delivered + q;
      }
  }

  /** In every run without overflow the reads deliver the arrived bytes, in order and without gaps. */
  lemma {:induction false} ReadsDeliverTheStream(es: seq<Event>)
    requires NoOverflow(es)
    ensures After(es).delivered + (After(es).queue + After(es).pending) == After(es).arrived
  {
    if es != [] {
      ReadsDeliverTheStream(es[..|es| - 1]);
      StepKeepsStream(After(es[..|es| - 1]), es[|es| - 1]);
    }
  }
}
