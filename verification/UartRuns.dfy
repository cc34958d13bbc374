// Whole runs of the receiver: arrivals, polls and reads in any order, with more arrivals while a poll runs.
module UartRuns {
  import opened Common
  import opened UartFifo
  import opened Uart

  /** The arrivals of `bytes` as events. */
  function Arrivals(bytes: seq<byte>): seq<Event>
  {
    seq(|bytes|, i requires 0 <= i < |bytes| => Event.Arrive(bytes[i]))
  }

  /** `es` with what arrived during each event put behind it. */
  function WithLate(es: seq<Event>, late: seq<seq<byte>>): seq<Event>
    requires |late| == |es|
  {
    if es == [] then []
    else WithLate(es[..|es| - 1], late[..|es| - 1]) + ([es[|es| - 1]] + Arrivals(late[|es| - 1]))
  }

  lemma AfterAppend(es: seq<Event>, e: Event)
    ensures After(es + [e]) == Step(After(es), e)
  {
    hide Step;
    assert (es + [e])[..|es|] == es;
  }

  lemma {:induction false} AfterArrivals(es: seq<Event>, bytes: seq<byte>)
    ensures var s := After(es);
            After(es + Arrivals(bytes)) == s.(pending := s.pending + bytes, arrived := s.arrived + bytes)
  {
    hide After;
    if bytes == [] {
      assert es + Arrivals(bytes) == es;
    } else {
      var n := |bytes| - 1;
      AfterArrivals(es, bytes[..n]);
      assert es + Arrivals(bytes) == es + Arrivals(bytes[..n]) + [Event.Arrive(bytes[n])];
      AfterAppend(es + Arrivals(bytes[..n]), Event.Arrive(bytes[n]));
      assert bytes == bytes[..n] + [bytes[n]];
    }
  }

  lemma WithLateStep(es: seq<Event>, late: seq<seq<byte>>, i: nat)
    requires |late| == i + 1 <= |es|
    ensures WithLate(es[..i + 1], late) == WithLate(es[..i], late[..i]) + [es[i]] + Arrivals(late[i])
  {
    hide Arrivals;
    assert es[..i + 1][..i] == es[..i];
  }

  lemma AfterOneMore(es: seq<Event>, late: seq<seq<byte>>, i: nat)
    requires |late| == i + 1 <= |es|
    ensures var before := After(WithLate(es[..i], late[..i]));
            var s := Step(before, es[i]);
            After(WithLate(es[..i + 1], late)) == s.(pending := s.pending + late[i], arrived := s.arrived + late[i])
  {
    hide After, Step, Arrivals, WithLate;
    var front := WithLate(es[..i], late[..i]);
    WithLateStep(es, late, i);
    AfterArrivals(front + [es[i]], late[i]);
    AfterAppend(front, es[i]);
  }

  /** One event at the receiver; a byte read is appended to what was delivered. `late` arrives while it is handled. */
  method Handle(r: Receiver, e: Event, delivered: seq<byte>) returns (delivered': seq<byte>, ghost late: seq<byte>)
    requires r.Valid()
    modifies r, r.rxBuffer
    ensures r.Valid() && |late| < AREA && (e.Arrive? ==> late == [])
    ensures forall arrived :: var s := Step(Rx(old(r.queue), old(r.pending), arrived, delivered), e);
                              r.queue == s.queue && r.pending == s.pending + late && delivered' == s.delivered
  {
    hide r.Valid, Polled;
    delivered' := delivered;
    match e
    case Arrive(b) =>
      r.Arrive(b);
      late := [];
    case Poll =>
      var _ := r.Available();
      late := r.pending;
    case Read =>
      var c := r.Read();
      late := r.pending;
      if c >= 0 {
        delivered' := delivered + [c];
      }
  }

  /**
   * After any events at a newly opened receiver, and whatever arrives while they are handled, it holds what the queue
   * of `UartFifo` holds after the same events with those arrivals behind them, and has delivered what that queue has.
   */
  method Drive(es: seq<Event>) returns (r: Receiver, delivered: seq<byte>, ghost late: seq<seq<byte>>)
    ensures r.Valid() && fresh(r) && fresh(r.rxBuffer)
    ensures |late| == |es| && forall i :: 0 <= i < |es| && es[i].Arrive? ==> late[i] == []
    ensures var s := After(WithLate(es, late));
            && r.queue == s.queue && r.pending == s.pending && delivered == s.delivered
            && (NoOverflow(WithLate(es, late)) ==> delivered <= s.arrived)
  {
    hide r.Valid, Step;
    r := new Receiver();
    delivered, late := [], [];
    NothingReceived();
    for i := 0 to |es|
      invariant r.Valid() && fresh(r) && fresh(r.rxBuffer)
      invariant |late| == i && forall j :: 0 <= j < i && es[j].Arrive? ==> late[j] == []
      invariant var s := After(WithLate(es[..i], late)); r.queue == s.queue && r.pending == s.pending && delivered == s.delivered
    {
      ghost var before, more := After(WithLate(es[..i], late)), [];
      delivered, more := Handle(r, es[i], delivered);
      AfterOneMore(es, late + [more], i);
      assert (late + [more])[..i] == late;
      assert Step(Rx(before.queue, before.pending, before.arrived, before.delivered), es[i]) == Step(before, es[i]);
      late := late + [more];
    }
    assert es[..|es|] == es;
    if NoOverflow(WithLate(es, late)) {
      ReadsDeliverTheStream(WithLate(es, late));
    }
  }

  lemma NothingReceived()
    ensures After(WithLate([], [])) == Rx([], [], [], [])
  {
  }
}
