// A client that waits after each start, as bench_cluster_exec in kernel/bench.c does.
module ClusterClient {
  import opened Cluster
  import opened ClusterRuns
  import opened ClusterHistory

  ghost predicate WaitsAfterEachStart(states: seq<State>, steps: seq<Step>)
    requires |states| == |steps| + 1
  {
    forall i :: 0 <= i < |steps| && steps[i].Store? ==> MayStart(states[i])
  }

  predicate MayStart(s: State)
  {
    s.starts == [] || s.control.Seen?
  }

  /** Start `k` is the first that has set the flag. */
  ghost predicate FirstArmed(starts: seq<Start>, k: int)
  {
    0 <= k < |starts| && starts[k].armed && forall j :: 0 <= j < k ==> !starts[j].armed
  }

  /**
   * Cores have entered only for the first start that set the flag. Until core 0 is parked that is the latest one;
   * a second one leaves the flag set.
   */
  ghost predicate InTurn(s: State)
  {
    && (forall c :: 0 <= c < |s.cores| && 0 < Passed(s.cores[c]) ==> FirstArmed(s.starts, s.cores[c].start))
    && (0 < s.arms && 0 < |s.cores| && s.cores[0].pc != Parked ==> FirstArmed(s.starts, |s.starts| - 1))
    && (1 < s.arms ==> s.running && 0 < |s.cores| && s.cores[0].pc == Parked)
  }

  lemma {:induction false} NoneArmed(starts: seq<Start>, k: nat)
    requires k < |starts| && Armed(starts) == 0
    ensures !starts[k].armed
  {
    if k < |starts| - 1 {
      NoneArmed(starts[..|starts| - 1], k);
    }
  }

  lemma FirstArmedStays(starts: seq<Start>, entry: int, k: int)
    requires FirstArmed(starts, k)
    ensures FirstArmed(starts + [Start(entry, false)], k)
    ensures !starts[|starts| - 1].armed ==> FirstArmed(ArmLast(starts), k)
  {
  }

  lemma LastBecomesFirst(starts: seq<Start>)
    requires starts != [] && Armed(starts) == 0
    ensures FirstArmed(ArmLast(starts), |starts| - 1)
  {
    forall j | 0 <= j < |starts| - 1
      ensures !starts[j].armed
    {
      NoneArmed(starts, j);
    }
  }

  /** A core enters while core 0 is not parked, and after the flag was set. */
  lemma EntersBeforeParked(s: State, c: nat)
    requires Invariant(s) && AtPc(s, c, Waiting1)
    ensures 0 < s.arms && s.cores[0].pc != Parked
  {
    RoundsApart(s, 0, c);
    hide Round, Masks, Entries, History, Outcomes, Observed;
  }

  lemma EnteredInTurn(s: State, step: Step, c: nat)
    requires Invariant(s) && Enabled(s, step) && InTurn(s) && (step.Store? ==> MayStart(s))
    requires c < |s.cores| && c < |Apply(s, step).cores| && 0 < Passed(Apply(s, step).cores[c])
    ensures FirstArmed(Apply(s, step).starts, Apply(s, step).cores[c].start)
  {
    hide Trigger, Clear, All, Round, Masks, Fetched, Observed, Armed, ArmLast, FirstArmed;
    if step.Wake1? && step.c == c {
      EntersBeforeParked(s, c);
    } else if step.Store? {
      FirstArmedStays(s.starts, step.newEntry, s.cores[c].start);
    } else if step.Arm? {
      FirstArmedStays(s.starts, 0, s.cores[c].start);
    }
  }

  lemma LatestInTurn(s: State, step: Step)
    requires Invariant(s) && Enabled(s, step) && InTurn(s) && (step.Store? ==> MayStart(s))
    ensures var t := Apply(s, step);
            && (0 < t.arms && 0 < |t.cores| && t.cores[0].pc != Parked ==> FirstArmed(t.starts, |t.starts| - 1))
            && (1 < t.arms ==> t.running && 0 < |t.cores| && t.cores[0].pc == Parked)
  {
    hide Trigger, Clear, All, Round, Masks, Fetched, Armed, ArmLast;
    if step.Arm? {
      if s.arms == 0 {
        LastBecomesFirst(s.starts);
      }
    }
  }

  lemma InTurnKept(s: State, step: Step)
    requires Invariant(s) && Enabled(s, step) && InTurn(s) && (step.Store? ==> MayStart(s))
    ensures InTurn(Apply(s, step))
  {
    hide Enabled, Apply, Invariant, FirstArmed, Passed;
    StepsAdvance(s, step);
    LatestInTurn(s, step);
    var t := Apply(s, step);
    forall c | 0 <= c < |t.cores| && 0 < Passed(t.cores[c])
      ensures FirstArmed(t.starts, t.cores[c].start)
    {
      EnteredInTurn(s, step, c);
    }
  }

  lemma {:induction false} RunKeepsInTurn(states: seq<State>, steps: seq<Step>, i: nat)
    requires IsRun(states, steps) && WaitsAfterEachStart(states, steps) && i < |states|
    ensures InTurn(states[i])
  {
    hide Initial, Enabled, Apply, MayStart, Invariant, InTurn;
    if i == 0 {
      InitialInTurn(states[0]);
    } else {
      RunKeepsInTurn(states, steps, i - 1);
      RunKeepsInvariant(states, steps, i - 1);
      assert Enabled(states[i - 1], steps[i - 1]);
      InTurnKept(states[i - 1], steps[i - 1]);
    }
  }

  lemma InitialInTurn(s: State)
    requires Initial(s)
    ensures InTurn(s)
  {
  }

  /** All cores are back from what start `k` was given. */
  ghost predicate DoneFor(s: State, k: int)
  {
    forall d :: 0 <= d < |s.cores| ==> HasReturned(s.cores[d]) && s.cores[d].start == k
  }

  /**
   * When a wait behind a start returns, all cores are back from the latest start exactly if the stacks fit. Then it is
   * the first start, so that no later one's wait ever returns; every core ran the function that was passed to it, and
   * the value is what the function returned to core 0. Otherwise no core has been fetched, and the value is 0.
   */
  lemma WaitMeansDoneIff(states: seq<State>, steps: seq<Step>, i: nat)
    requires IsRun(states, steps) && WaitsAfterEachStart(states, steps) && i < |states|
    requires states[i].control.Seen? && states[i].starts != []
    ensures 0 < |states[i].cores|
    ensures var s, last := states[i], |states[i].starts| - 1;
            && (DoneFor(s, last) <==> s.stacks)
            && (s.stacks ==>
                  && last == 0 && |Given(steps, i)| == 1
                  && (forall d :: 0 <= d < |s.cores| ==> s.cores[d].ran == Given(steps, i)[0])
                  && exists k :: 0 <= k < i && steps[k] == Return(0, s.control.value))
            && (!s.stacks ==> s.control.value == 0 && forall d :: 0 <= d < |s.cores| ==> s.cores[d].pc == Off)
  {
    RunKeepsInvariant(states, steps, i);
    RunKeepsInTurn(states, steps, i);
    hide IsRun, WaitsAfterEachStart, InTurn;
    StartsAreGiven(states, steps, i);
    if states[i].stacks {
      FirstStartDone(states[i]);
      var k := ReturnedBy(states, steps, i, 0);
    } else {
      NothingFetched(states, steps, i);
      assert !HasReturned(states[i].cores[0]);
    }
  }

  /** Between the starts every one of them has set the flag, if the stacks fit. */
  lemma AllArmed(s: State)
    requires Invariant(s) && s.stacks && s.starts != [] && s.control.Seen?
    ensures forall i :: 0 <= i < |s.starts| ==> s.starts[i].armed
  {
    hide Round, Masks, Fetched, Entries, History, Observed, Reported;
  }

  /** Without stacks no core is ever fetched, whatever the client does, and a wait that returns gives 0. */
  lemma NothingFetched(states: seq<State>, steps: seq<Step>, i: nat)
    requires IsRun(states, steps) && i < |states| && !states[i].stacks
    ensures 0 < |states[i].cores| && !states[i].running
    ensures forall d :: 0 <= d < |states[i].cores| ==> states[i].cores[d].pc == Off
    ensures states[i].control.Seen? ==> states[i].control.value == 0
  {
    RunKeepsInvariant(states, steps, i);
    hide IsRun, Round, Masks, Entries, History;
  }

  /** Whether the stacks fit is settled before the first start. */
  lemma {:induction false} StacksSettled(states: seq<State>, steps: seq<Step>, i: nat)
    requires IsRun(states, steps) && i < |states|
    ensures states[i].stacks == states[0].stacks
  {
    hide Initial, Enabled, Apply, Outcomes;
    if 0 < i {
      StacksSettled(states, steps, i - 1);
      RunKeepsInvariant(states, steps, i - 1);
      assert Enabled(states[i - 1], steps[i - 1]);
      OutcomesKept(states[i - 1], steps[i - 1]);
    }
  }

  /** If the stacks fit, only the wait behind the first start returns. */
  lemma FirstStartDone(s: State)
    requires Invariant(s) && InTurn(s) && s.control.Seen? && s.starts != [] && s.stacks
    ensures |s.starts| == 1 && DoneFor(s, 0) && 0 < |s.cores| && s.control.value == s.cores[0].result
    ensures forall d :: 0 <= d < |s.cores| ==> s.cores[d].ran == s.starts[0].entry
  {
    hide Round, Masks, Fetched;
    AllArmed(s);
    CountArmed(s.starts);
    forall d | 0 <= d < |s.cores|
      ensures HasReturned(s.cores[d]) && s.cores[d].start == 0 && s.cores[d].ran == s.starts[0].entry
    {
      NoneReportsEarly(s, d);
      assert FirstArmed(s.starts, s.cores[d].start) && Entered(s.cores[d], s.starts);
    }
  }

  lemma {:induction false} CountArmed(starts: seq<Start>)
    requires forall i :: 0 <= i < |starts| ==> starts[i].armed
    ensures Armed(starts) == |starts|
  {
    if starts != [] {
      CountArmed(starts[..|starts| - 1]);
    }
  }

  /** Without stacks another start and its wait always get through, return 0, and no core takes a step. */
  lemma FailedStartGivesZero(states: seq<State>, steps: seq<Step>, entry: int) returns (states': seq<State>, steps': seq<Step>)
    requires |states| == |steps| + 1 && IsRun(states, steps) && WaitsAfterEachStart(states, steps) && MayStart(states[|steps|])
    requires states[|steps|].control == Idle || states[|steps|].control.Seen?
    requires !states[|steps|].stacks
    ensures IsRun(states', steps') && WaitsAfterEachStart(states', steps') && |states'| == |steps'| + 1
    ensures steps' == steps + [Store(entry), NoStacks, Wait, PollDone, ReadRetval]
    ensures var s, t := states[|steps|], states'[|steps'|];
            && t.cores == s.cores && t.starts == s.starts + [Start(entry, false)] && t.control == Seen(0) && !t.stacks
  {
    hide IsRun, WaitsAfterEachStart, Trigger, Clear, All, ArmLast, Boot;
    StillZero(states, steps);
    NothingFetched(states, steps, |steps|);
    states', steps' := Extend(states, steps, Store(entry));
    states', steps' := Extend(states', steps', NoStacks);
    states', steps' := WaitReturns(states', steps');
  }

  /** A wait while the flag is 0. */
  lemma WaitReturns(states: seq<State>, steps: seq<Step>) returns (states': seq<State>, steps': seq<Step>)
    requires |states| == |steps| + 1 && IsRun(states, steps) && WaitsAfterEachStart(states, steps)
    requires states[|steps|].control == Idle && !states[|steps|].running
    ensures IsRun(states', steps') && WaitsAfterEachStart(states', steps') && |states'| == |steps'| + 1
    ensures steps' == steps + [Wait, PollDone, ReadRetval]
    ensures states'[|steps'|] == states[|steps|].(control := Seen(states[|steps|].retval))
  {
    hide IsRun, WaitsAfterEachStart, Trigger, Clear, All, ArmLast, Boot;
    states', steps' := Extend(states, steps, Wait);
    states', steps' := Extend(states', steps', PollDone);
    states', steps' := Extend(states', steps', ReadRetval);
  }

  lemma StillZero(states: seq<State>, steps: seq<Step>)
    requires IsRun(states, steps) && MayStart(states[|steps|])
    requires states[|steps|].control == Idle || states[|steps|].control.Seen?
    ensures !states[|steps|].running
    ensures states[|steps|].retval == if states[|steps|].control.Seen? then states[|steps|].control.value else 0
  {
    RunKeepsInvariant(states, steps, |steps|);
    var s := states[|steps|];
    hide IsRun, Round, Masks;
    assert s.starts == [] ==> Armed(s.starts) == 0;
  }

  lemma Extend(states: seq<State>, steps: seq<Step>, step: Step) returns (states': seq<State>, steps': seq<Step>)
    requires |states| == |steps| + 1 && IsRun(states, steps) && WaitsAfterEachStart(states, steps)
    requires Enabled(states[|steps|], step) && (step.Store? ==> MayStart(states[|steps|]))
    ensures IsRun(states', steps') && WaitsAfterEachStart(states', steps')
    ensures |states'| == |steps'| + 1 && steps' == steps + [step]
    ensures states'[|steps'|] == Apply(states[|steps|], step)
  {
    hide Enabled, Apply, Initial, MayStart;
    states', steps' := states + [Apply(states[|steps|], step)], steps + [step];
    forall i | 0 <= i < |steps'|
      ensures Enabled(states'[i], steps'[i]) && states'[i + 1] == Apply(states'[i], steps'[i])
      ensures steps'[i].Store? ==> MayStart(states'[i])
    {
      if i < |steps| {
        assert Enabled(states[i], steps[i]);
      }
    }
  }

  /** Once two starts have set the flag, it stays set and no wait returns any more. */
  lemma {:induction false} SecondStartNeverReturns(states: seq<State>, steps: seq<Step>, i: nat, j: nat)
    requires IsRun(states, steps) && WaitsAfterEachStart(states, steps) && i <= j < |states| && 1 < states[i].arms
    ensures states[j].running && 1 < states[j].arms && states[j].control != Reading && !states[j].control.Seen?
    decreases j
  {
    hide Initial, Enabled, Apply, MayStart, Invariant;
    RunKeepsInTurn(states, steps, j);
    RunKeepsInvariant(states, steps, j);
    if i < j {
      SecondStartNeverReturns(states, steps, i, j - 1);
      assert Enabled(states[j - 1], steps[j - 1]);
      ArmsGrow(states[j - 1], steps[j - 1]);
    }
    NotSeenWhileRunning(states[j]);
  }

  lemma ArmsGrow(s: State, step: Step)
    requires Enabled(s, step)
    ensures s.arms <= Apply(s, step).arms
  {
  }

  lemma NotSeenWhileRunning(s: State)
    requires Invariant(s) && s.running
    ensures s.control != Reading && !s.control.Seen?
  {
    hide Round, Masks, Entries, History, Outcomes, Fetched, Reported;
  }

  /** After a wait has returned, a second start that finds stacks leads there. */
  lemma SecondStartSetsFlag(states: seq<State>, steps: seq<Step>, entry: int) returns (states': seq<State>, steps': seq<Step>)
    requires |states| == |steps| + 1 && IsRun(states, steps) && WaitsAfterEachStart(states, steps)
    requires states[|steps|].control.Seen? && 0 < states[|steps|].arms && states[|steps|].stacks
    ensures IsRun(states', steps') && WaitsAfterEachStart(states', steps') && |states'| == |steps'| + 1
    ensures steps' == steps + [Store(entry), HasStacks, Arm, Fetch, Wait]
    ensures var t := states'[|steps'|]; t.control == Polling && t.running && 1 < t.arms && t.retval == states[|steps|].control.value
  {
    hide IsRun, WaitsAfterEachStart, Trigger, Clear, All, ArmLast, Boot;
    StillZero(states, steps);
    states', steps' := Extend(states, steps, Store(entry));
    states', steps' := Extend(states', steps', HasStacks);
    states', steps' := Extend(states', steps', Arm);
    states', steps' := Extend(states', steps', Fetch);
    states', steps' := Extend(states', steps', Wait);
  }

  // ----- It does happen

  /** One core, and a start that finds stacks: the wait returns what the entry function has returned. */
  lemma OneCoreRun(entry: int, value: int) returns (states: seq<State>, steps: seq<Step>)
    ensures IsRun(states, steps) && WaitsAfterEachStart(states, steps) && |states| == |steps| + 1
    ensures states[|steps|].control == Seen(value) && states[|steps|].starts == [Start(entry, true)] && states[|steps|].arms == 1
    ensures states[|steps|].stacks
    ensures states[|steps|].cores == [Core(Parked, entry, 0, value)]
  {
    hide IsRun, WaitsAfterEachStart;
    states, steps := OneCoreEnters(entry);
    states, steps := Extend(states, steps, Return(0, value));
    states, steps := Extend(states, steps, Arrive2(0));
    states, steps := Extend(states, steps, Wake2(0));
    states, steps := Extend(states, steps, StoreRetval);
    states, steps := Extend(states, steps, ClearRunning);
    states, steps := WaitReturns(states, steps);
  }

  lemma OneCoreEnters(entry: int) returns (states: seq<State>, steps: seq<Step>)
    ensures IsRun(states, steps) && WaitsAfterEachStart(states, steps) && |states| == |steps| + 1
    ensures states[|steps|] == State([Core(Running, entry, 0, 0)], Barrier({0}, {0}, {}, {}), entry, true, 0, Idle, 1, [Start(entry, true)], true)
  {
    hide IsRun, WaitsAfterEachStart;
    OneCore();
    states, steps := OneCoreFetched(entry);
    states, steps := Extend(states, steps, SetMask(0));
    states, steps := Extend(states, steps, SetTarget(0));
    states, steps := Extend(states, steps, Arrive1(0));
    states, steps := Extend(states, steps, Wake1(0));
  }

  lemma OneCore()
    ensures All(1) == {0}
  {
  }

  lemma OneCoreFetched(entry: int) returns (states: seq<State>, steps: seq<Step>)
    ensures IsRun(states, steps) && WaitsAfterEachStart(states, steps) && |states| == |steps| + 1
    ensures states[|steps|] == State([Core(Booted, 0, 0, 0)], Barrier({}, {}, {}, {}), entry, true, 0, Idle, 1, [Start(entry, true)], true)
  {
    hide Trigger, Clear, All;
    states, steps := [State([Core(Off, 0, 0, 0)], Barrier({}, {}, {}, {}), 0, false, 0, Idle, 0, [], true)], [];
    states, steps := Extend(states, steps, Store(entry));
    states, steps := Extend(states, steps, HasStacks);
    states, steps := Extend(states, steps, Arm);
    states, steps := Extend(states, steps, Fetch);
  }

  /** The first wait returns and the second one never does: its start sets the flag, which stays set whatever happens. */
  lemma WaitsForEver(first: int, value: int, second: int) returns (states: seq<State>, steps: seq<Step>)
    ensures IsRun(states, steps) && WaitsAfterEachStart(states, steps) && |states| == |steps| + 1
    ensures states[|steps|].control == Polling && states[|steps|].running && 1 < states[|steps|].arms
  {
    hide IsRun, WaitsAfterEachStart;
    states, steps := OneCoreRun(first, value);
    states, steps := SecondStartSetsFlag(states, steps, second);
  }
}
