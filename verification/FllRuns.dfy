// Any sequence of setting, switching on and switching off: when the recorded frequency is that of the hardware.
module FllRuns {
  import opened Arithmetic
  import opened FllMath
  import opened Fll

  /** One loop: its record, whether it counts as on, and the fields of its configuration register. */
  datatype Loop = Loop(freq: nat, on: bool, mult: nat, div: nat)

  /** The frequencies that can be set. */
  type Freq = x: nat | 0 < x < 0x4000_0000 witness 1

  datatype Op = Set(freq: Freq) | Init | Deinit

  /** The fields fit, and the hardware runs below the limit of `Shift`. */
  ghost predicate Sound(l: Loop)
  {
    l.mult < 0x1_0000 && 0 < l.div < 16 && l.freq < 0x4000_0000 && FreqOf(l.mult, l.div) < 0x4000_0000
  }

  function HwFreq(l: Loop): nat
    requires 0 < l.div
  {
    FreqOf(l.mult, l.div)
  }

  /** The record changes, and the hardware with it if the loop is on. */
  function Recorded(l: Loop, freq: nat): Loop
    requires 0 < freq
  {
    if l.on then Loop(RealFreq(freq), true, Mult(freq), Shift(freq) + 1) else l.(freq := RealFreq(freq))
  }

  function After(l: Loop, op: Op): Loop
    requires 0 < l.div
  {
    match op
    case Set(x) => Recorded(l, x)
    case Init => (if l.freq == 0 then l.(freq := HwFreq(l)) else Recorded(l, l.freq)).(on := true)
    case Deinit => l.(on := false)
  }

  /** The state of the loop after a sequence of operations. */
  ghost function Run(l: Loop, ops: seq<Op>): (t: Loop)
    requires Sound(l)
    ensures Sound(t)
  {
    if ops == [] then l
    else
      SoundKept(Run(l, ops[..|ops| - 1]), ops[|ops| - 1]);
      After(Run(l, ops[..|ops| - 1]), ops[|ops| - 1])
  }

  lemma RealFreqFits(freq: nat)
    requires 0 < freq < 0x4000_0000
    ensures Mult(freq) < 0x1_0000 && 2 <= Shift(freq) + 1 < 16
    ensures RealFreq(freq) <= freq && FreqOf(Mult(freq), Shift(freq) + 1) == RealFreq(freq)
  {
    hide Mult, Shift, FreqOf, Pow2;
    ShiftFitsIff(freq);
    MultFits(freq);
    ErrorBound(freq);
  }

  lemma SoundKept(l: Loop, op: Op)
    requires Sound(l)
    ensures Sound(After(l, op))
  {
    hide Mult, Shift, FreqOf, RealFreq;
    if op.Set? {
      RealFreqFits(op.freq);
    } else if 0 < l.freq {
      RealFreqFits(l.freq);
    }
  }

  /** The recorded frequency is that of the hardware. */
  predicate Agrees(l: Loop)
    requires 0 < l.div
  {
    l.freq == HwFreq(l)
  }

  /** A frequency that setting does not change any more; 0 stands for none. */
  predicate Fixed(freq: nat)
  {
    freq == 0 || RealFreq(freq) == freq
  }

  /** What is recorded, and what the hardware has, can be set again. */
  ghost predicate Settled(l: Loop)
  {
    Sound(l) && Fixed(l.freq) && Fixed(HwFreq(l))
  }

  lemma RecordedSettles(l: Loop, freq: nat)
    requires Settled(l) && 0 < freq < 0x4000_0000
    ensures Settled(Recorded(l, freq)) && (l.on ==> Agrees(Recorded(l, freq)))
  {
    hide Mult, Shift, FreqOf, RealFreq;
    RealFreqFits(freq);
    if RealFreq(freq) != 0 {
      RealFreqIsFixed(freq);
    }
  }

  /** One operation: a loop that is off keeps its hardware, one that is on follows every record. */
  lemma Settles(l: Loop, op: Op)
    requires Settled(l)
    ensures Settled(After(l, op))
    ensures op.Set? ==> (Agrees(After(l, op)) <==> l.on || RealFreq(op.freq) == HwFreq(l))
    ensures op.Init? ==> (Agrees(After(l, op)) <==> l.on || l.freq == 0 || Agrees(l))
    ensures op.Deinit? ==> (Agrees(After(l, op)) <==> Agrees(l))
  {
    hide Mult, Shift, FreqOf, RealFreq;
    if op.Set? {
      RecordedSettles(l, op.freq);
    } else if op.Init? && l.freq != 0 {
      RecordedSettles(l, l.freq);
    }
  }

  lemma {:induction false} RunSettles(l: Loop, ops: seq<Op>)
    requires Settled(l)
    ensures Settled(Run(l, ops))
  {
    hide FreqOf, RealFreq, Mult, Shift, After, Fixed;
    if ops != [] {
      var front, op := ops[..|ops| - 1], ops[|ops| - 1];
      RunSettles(l, front);
      Settles(Run(l, front), op);
    }
  }

  /**
   * In any sequence of operations a loop that is on disagrees with its record exactly when the last operation has
   * just switched it on with a record, set while it was off, that is not what the hardware has.
   */
  lemma DisagreesIff(l: Loop, ops: seq<Op>)
    requires Settled(l) && ops != []
    requires Run(l, ops).on
    ensures var before := Run(l, ops[..|ops| - 1]);
            !Agrees(Run(l, ops)) <==> ops[|ops| - 1].Init? && !before.on && before.freq != 0 && before.freq != HwFreq(before)
  {
    hide FreqOf, RealFreq, Mult, Shift, Fixed;
    var front, op := ops[..|ops| - 1], ops[|ops| - 1];
    RunSettles(l, front);
    Settles(Run(l, front), op);
  }

  /** Whether every frequency is set while the loop is on. */
  ghost predicate SetsWhileOn(l: Loop, ops: seq<Op>)
    requires Sound(l)
  {
    forall i :: 0 <= i < |ops| && ops[i].Set? ==> Run(l, ops[..i]).on
  }

  /** A client that sets frequencies only while the loop is on has a record that agrees, from the first one on. */
  lemma {:induction false} OrderlyClientAgrees(l: Loop, ops: seq<Op>)
    requires Settled(l) && l.freq == 0 && !l.on
    requires SetsWhileOn(l, ops)
    ensures Agrees(Run(l, ops)) || (Run(l, ops).freq == 0 && !Run(l, ops).on)
  {
    hide Fixed, FreqOf, RealFreq, Mult, Shift;
    if ops != [] {
      var front, op := ops[..|ops| - 1], ops[|ops| - 1];
      assert forall i :: 0 <= i < |front| ==> front[..i] == ops[..i];
      OrderlyClientAgrees(l, front);
      RunSettles(l, front);
      Settles(Run(l, front), op);
    }
  }

  /** The reset values of the configuration register, about 50 MHz, are such a start. */
  lemma ResetIsSettled()
    ensures Settled(Loop(0, false, 0x5F5, 1))
  {
    hide Log2, Div;
    DivideMultiple(1, 49_971_200, 0);
    DivideMultiple(REF_CLOCK, 6100, 0);
    DivideMultiple(4, 49_971_200, 0);
    assert Pow2(5) == 32 && Pow2(10) == 1024 && Pow2(15) == 0x8000 && Pow2(20) == 0x10_0000 && Pow2(25) == 0x200_0000;
    Log2Below(49_971_200, 25);
    Log2Below(49_971_200, 26);
    assert Log2(49_971_200) == 25;
    assert Mult(49_971_200) == 6100;
  }

  /** From reset, 10 MHz that are set before the loop is switched on do not reach the hardware. */
  lemma SetBeforeInitIsLost()
    ensures var l := Loop(0, false, 0x5F5, 1);
            Settled(l) && Run(l, [Set(10_000_000), Init]).on && !Agrees(Run(l, [Set(10_000_000), Init]))
  {
    hide Log2, Div, Mult, Shift, RealFreq, FreqOf, Settled, Fixed;
    var l, ops: seq<Op> := Loop(0, false, 0x5F5, 1), [Set(10_000_000), Init];
    ResetIsSettled();
    SettledIsSound(l);
    ResetFreq(l);
    TenMegahertz();
    assert ops[..1] == [Set(10_000_000)] && ops[..1][..0] == [];
    assert Run(l, ops[..1]) == l.(freq := RealFreq(10_000_000));
    DisagreesIff(l, ops);
  }

  lemma SettledIsSound(l: Loop)
    requires Settled(l)
    ensures Sound(l)
  {
  }

  lemma ResetFreq(l: Loop)
    requires l.mult == 0x5F5 && l.div == 1
    ensures HwFreq(l) == 49_971_200
  {
    hide Div;
    DivideMultiple(1, 49_971_200, 0);
  }

  lemma TenMegahertz()
    ensures 0 < RealFreq(10_000_000) <= 10_000_000
  {
    hide RealFreq, Pow2;
    ErrorBound(10_000_000);
    ShiftFitsIff(10_000_000);
    Pow2Monotone(15 - Shift(10_000_000), 15);
    Pow2Values();
  }

  // ----- The code does these steps

  ghost function LoopOf(f: Flls, fll: nat): Loop
    requires f.Valid() && fll < f.freqs.Length
    reads f, f.freqs, f.isOn, f.mult, f.div
  {
    Loop(f.freqs[fll], f.isOn[fll], f.mult[fll], f.div[fll])
  }

  /** The operations of `requests` that are for loop `fll`. */
  function For(requests: seq<(nat, Op)>, fll: nat): seq<Op>
  {
    if requests == [] then []
    else For(requests[..|requests| - 1], fll)
         + (if requests[|requests| - 1].0 == fll then [requests[|requests| - 1].1] else [])
  }

  /** One operation does its step on its own loop and leaves the others alone. */
  method Do(f: Flls, fll: nat, op: Op)
    requires f.Valid() && fll < f.freqs.Length && Sound(LoopOf(f, fll))
    modifies f.freqs, f.isOn, f.mult, f.div, f.mode
    ensures LoopOf(f, fll) == After(old(LoopOf(f, fll)), op)
    ensures forall i :: 0 <= i < f.freqs.Length && i != fll ==> LoopOf(f, i) == old(LoopOf(f, i))
  {
    hide FreqOf, RealFreq, Mult, Shift;
    match op
    case Set(x) => var _ := f.SetFreq(fll, x);
    case Init => var _ := f.Init(fll);
    case Deinit => f.Deinit(fll);
  }

  /** Any sequence of operations takes every loop through its own run. */
  method DoAll(f: Flls, requests: seq<(nat, Op)>)
    requires f.Valid() && forall i :: 0 <= i < f.freqs.Length ==> Sound(LoopOf(f, i))
    requires forall i :: 0 <= i < |requests| ==> requests[i].0 < f.freqs.Length
    modifies f.freqs, f.isOn, f.mult, f.div, f.mode
    ensures forall i :: 0 <= i < f.freqs.Length ==> LoopOf(f, i) == Run(old(LoopOf(f, i)), For(requests, i))
  {
    hide Sound, Fixed, FreqOf, After, For, Run;
    forall i | 0 <= i < f.freqs.Length
      ensures LoopOf(f, i) == Run(LoopOf(f, i), For(requests[..0], i))
    {
      NothingDone(LoopOf(f, i), requests[..0], i);
    }
    for k := 0 to |requests|
      invariant forall i :: 0 <= i < f.freqs.Length ==> LoopOf(f, i) == Run(old(LoopOf(f, i)), For(requests[..k], i))
    {
      var fll, op := requests[k].0, requests[k].1;
      Do(f, fll, op);
      forall i | 0 <= i < f.freqs.Length
        ensures LoopOf(f, i) == Run(old(LoopOf(f, i)), For(requests[..k + 1], i))
      {
        OneMore(old(LoopOf(f, i)), requests, k, i);
      }
    }
    assert requests[..|requests|] == requests;
  }

  lemma NothingDone(l: Loop, requests: seq<(nat, Op)>, fll: nat)
    requires Sound(l) && requests == []
    ensures Run(l, For(requests, fll)) == l
  {
  }

  lemma OneMore(l: Loop, requests: seq<(nat, Op)>, k: nat, fll: nat)
    requires Sound(l) && k < |requests|
    ensures var before := Run(l, For(requests[..k], fll));
            Run(l, For(requests[..k + 1], fll)) == if requests[k].0 == fll then After(before, requests[k].1) else before
  {
    hide Sound, After;
    assert requests[..k + 1][..k] == requests[..k];
    var ops := For(requests[..k], fll);
    assert (ops + [requests[k].1])[..|ops|] == ops;
    assert ops + [] == ops;
  }
}
