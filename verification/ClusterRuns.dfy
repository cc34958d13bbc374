// What holds of every run of the cluster protocol.
module ClusterRuns {
  import opened Cluster

  /** A run: the states it goes through and the steps between them. */
  ghost predicate IsRun(states: seq<State>, steps: seq<Step>)
  {
    && |states| == |steps| + 1 && Initial(states[0])
    && forall i :: 0 <= i < |steps| ==> Enabled(states[i], steps[i]) && states[i + 1] == Apply(states[i], steps[i])
  }

  lemma InitialInvariant(s: State)
    requires Initial(s)
    ensures Invariant(s)
  {
    assert Round(s.cores, s.barrier, 0) by {
      assert !Waits(s.cores[0]);
    }
  }

  lemma {:induction false} RunKeepsInvariant(states: seq<State>, steps: seq<Step>, i: nat)
    requires IsRun(states, steps) && i < |states|
    ensures Invariant(states[i])
  {
    hide Invariant, Initial, Enabled, Apply;
    if i == 0 {
      InitialInvariant(states[0]);
    } else {
      RunKeepsInvariant(states, steps, i - 1);
      assert Enabled(states[i - 1], steps[i - 1]);
      InvariantKept(states[i - 1], steps[i - 1]);
    }
  }

  /** Whether a core is back from the entry function. */
  predicate HasReturned(core: Core)
  {
    core.pc == Returned || core.pc == Waiting2 || core.pc == Released || core.pc == Stored || core.pc == Parked
  }

  predicate Initialised(core: Core)
  {
    core.pc != Off && core.pc != Booted && core.pc != MaskSet
  }

  /** No core is inside the entry function before all cores are initialised. */
  lemma NoneEntersEarly(states: seq<State>, steps: seq<Step>, i: nat, c: nat, d: nat)
    requires IsRun(states, steps) && i < |states| && c < |states[i].cores| && d < |states[i].cores|
    requires states[i].cores[c].pc == Running || HasReturned(states[i].cores[c])
    ensures Initialised(states[i].cores[d])
  {
    RunKeepsInvariant(states, steps, i);
    RoundsApart(states[i], c, d);
  }

  /** Once core 0 has left the second barrier, every core is back from the entry function. */
  lemma NoneReportsEarly(s: State, d: nat)
    requires Invariant(s) && d < |s.cores| && Passed(s.cores[0]) == 2
    ensures HasReturned(s.cores[d])
  {
    RoundsApart(s, 0, d);
  }

  /** A core is at most one barrier behind another one, and then it is still waiting there. */
  lemma RoundsApart(s: State, c: nat, d: nat)
    requires Invariant(s) && c < |s.cores| && d < |s.cores|
    ensures Passed(s.cores[d]) >= Passed(s.cores[c]) || (Passed(s.cores[d]) + 1 == Passed(s.cores[c]) && Waits(s.cores[d]))
  {
    hide Waits, Passed, Reported, Fetched, Entries, History, Outcomes, Observed, Masks;
    var round: nat :| round <= 2 && Round(s.cores, s.barrier, round);
    assert InRound(s.cores[c], c, s.barrier, round) && InRound(s.cores[d], d, s.barrier, round);
  }

  /**
   * Once `cluster_running` has been set and is 0 again, every core is back from the entry function of the start that
   * was the latest one when it entered, and `cluster_retval` is what core 0 returned.
   */
  lemma FlagCleared(states: seq<State>, steps: seq<Step>, i: nat, d: nat)
    requires IsRun(states, steps) && i < |states| && d < |states[i].cores|
    requires 0 < states[i].arms && !states[i].running
    ensures var s, core := states[i], states[i].cores[d];
            && HasReturned(core) && 0 <= core.start < |s.starts| && core.ran == s.starts[core.start].entry
    ensures states[i].retval == states[i].cores[0].result
  {
    RunKeepsInvariant(states, steps, i);
    NoneReportsEarly(states[i], d);
    assert Entered(states[i].cores[d], states[i].starts);
    hide IsRun, Fetched, Masks, Round;
  }

  // ----- The protocol does not get stuck

  predicate IsCoreStep(step: Step)
  {
    step.SetMask? || step.SetTarget? || step.Arrive1? || step.Wake1? || step.Return? || step.Arrive2? || step.Wake2?
    || step.StoreRetval? || step.ClearRunning? || step.Park?
  }

  /** A core that is neither off nor parked nor in a barrier can go on. */
  lemma CoreGoesOn(s: State, c: nat) returns (step: Step)
    requires Reported(s) && c < |s.cores| && s.cores[c].pc != Off && s.cores[c].pc != Parked && !Waits(s.cores[c])
    ensures IsCoreStep(step) && Enabled(s, step)
  {
    match s.cores[c].pc
    case Booted => step := SetMask(c);
    case MaskSet => step := SetTarget(c);
    case Ready => step := Arrive1(c);
    case Running => step := Return(c, 0);
    case Returned => step := Arrive2(c);
    case Released => step := if c == 0 then StoreRetval else Park(c);
    case Stored => step := ClearRunning;
  }

  lemma WakeGoesOn(s: State, c: nat) returns (step: Step)
    requires c < |s.cores| && Waits(s.cores[c]) && c in s.barrier.events
    ensures IsCoreStep(step) && Enabled(s, step)
  {
    step := if s.cores[c].pc == Waiting1 then Wake1(c) else Wake2(c);
  }

  /** As long as a fetched core is not parked, some core can take a step: the barriers cannot deadlock. */
  lemma NoDeadlock(s: State, c: nat) returns (step: Step)
    requires Invariant(s) && c < |s.cores| && s.cores[c].pc != Off && s.cores[c].pc != Parked
    ensures IsCoreStep(step) && Enabled(s, step)
  {
    hide IsCoreStep, Enabled, Reported, Entries, History, Outcomes, Observed, Masks;
    var b := s.barrier;
    var round: nat :| round <= 2 && Round(s.cores, b, round);
    assert InRound(s.cores[c], c, b, round);
    if !Waits(s.cores[c]) {
      step := CoreGoesOn(s, c);
    } else if Passed(s.cores[c]) + 1 == round {
      step := WakeGoesOn(s, c);
    } else {
      var d: nat :| d < |s.cores| && !(Waits(s.cores[d]) && Passed(s.cores[d]) == round);
      assert InRound(s.cores[d], d, b, round);
      if Waits(s.cores[d]) {
        step := WakeGoesOn(s, d);
      } else {
        step := CoreGoesOn(s, d);
      }
    }
  }

  function Rank(core: Core): (r: nat)
    ensures r <= 9
  {
    match core.pc
    case Off | Booted => 0
    case MaskSet => 1
    case Ready => 2
    case Waiting1 => 3
    case Running => 4
    case Returned => 5
    case Waiting2 => 6
    case Released => 7
    case Stored => 8
    case Parked => 9
  }

  function Total(cores: seq<Core>): (t: nat)
    ensures t <= 9 * |cores|
  {
    if cores == [] then 0 else Total(cores[1..]) + Rank(cores[0])
  }

  lemma {:induction false} TotalGrows(cores: seq<Core>, c: nat, core: Core)
    requires c < |cores|
    ensures Total(cores[c := core]) == Total(cores) - Rank(cores[c]) + Rank(core)
  {
    hide Rank;
    if 0 < c {
      TotalGrows(cores[1..], c - 1, core);
      assert cores[c := core][1..] == cores[1..][c - 1 := core];
    } else {
      assert cores[c := core][1..] == cores[1..];
    }
  }

  lemma {:induction false} SameTotal(cores: seq<Core>, next: seq<Core>)
    requires |cores| == |next| && forall c :: 0 <= c < |cores| ==> Rank(next[c]) == Rank(cores[c])
    ensures Total(next) == Total(cores)
  {
    hide Rank;
    if cores != [] {
      SameTotal(cores[1..], next[1..]);
    }
  }

  /** Every step of a core takes it further, and no other step takes a core back. */
  lemma StepsAdvance(s: State, step: Step)
    requires Enabled(s, step)
    ensures Total(Apply(s, step).cores) >= Total(s.cores) + (if IsCoreStep(step) then 1 else 0)
    ensures |Apply(s, step).cores| == |s.cores|
  {
    hide Total, Enabled, Apply, Rank;
    if IsCoreStep(step) {
      hide IsCoreStep;
      var c := CoreStepMoves(s, step);
      TotalGrows(s.cores, c, Apply(s, step).cores[c]);
    } else {
      OtherStepKeeps(s, step);
      SameTotal(s.cores, Apply(s, step).cores);
    }
  }

  lemma CoreStepMoves(s: State, step: Step) returns (c: nat)
    requires Enabled(s, step) && IsCoreStep(step)
    ensures c < |s.cores| && |Apply(s, step).cores| == |s.cores|
    ensures Apply(s, step).cores == s.cores[c := Apply(s, step).cores[c]]
    ensures Rank(Apply(s, step).cores[c]) > Rank(s.cores[c])
  {
    c := if step.StoreRetval? || step.ClearRunning? then 0 else step.c;
  }

  lemma OtherStepKeeps(s: State, step: Step)
    requires Enabled(s, step) && !IsCoreStep(step)
    ensures |Apply(s, step).cores| == |s.cores|
    ensures forall c :: 0 <= c < |s.cores| ==> Rank(Apply(s, step).cores[c]) == Rank(s.cores[c])
  {
  }

  function CoreSteps(steps: seq<Step>): nat
  {
    if steps == [] then 0 else CoreSteps(steps[..|steps| - 1]) + (if IsCoreStep(steps[|steps| - 1]) then 1 else 0)
  }

  lemma {:induction false} StepsCounted(states: seq<State>, steps: seq<Step>, i: nat)
    requires IsRun(states, steps) && i < |states|
    ensures CoreSteps(steps[..i]) <= Total(states[i].cores) && |states[i].cores| == |states[0].cores|
  {
    hide Total, IsCoreStep, Initial, Enabled, Apply;
    if 0 < i {
      StepsCounted(states, steps, i - 1);
      assert Enabled(states[i - 1], steps[i - 1]);
      StepsAdvance(states[i - 1], steps[i - 1]);
      assert steps[..i][..i - 1] == steps[..i - 1];
    }
  }

  /** Whether the flag was set again after core 0 had cleared it, within the first `n` steps. */
  ghost predicate Rearmed(steps: seq<Step>, n: nat)
    requires n <= |steps|
  {
    exists k, j :: 0 <= k < j < n && steps[k].ClearRunning? && steps[j].Arm?
  }

  ghost predicate Cleared(steps: seq<Step>, n: nat)
    requires n <= |steps|
  {
    exists k :: 0 <= k < n && steps[k].ClearRunning?
  }

  /** Core 0 is parked exactly if it has cleared the flag; then the flag is set exactly if it was set again. */
  lemma {:induction false} FlagHistory(states: seq<State>, steps: seq<Step>, i: nat)
    requires IsRun(states, steps) && i < |states|
    ensures 0 < |states[i].cores|
    ensures states[i].cores[0].pc == Parked <==> Cleared(steps, i)
    ensures Cleared(steps, i) ==> (states[i].running <==> Rearmed(steps, i))
  {
    hide Initial, Enabled, Apply, Cleared, Rearmed;
    if i == 0 {
      NothingYet(states[0], steps);
    } else {
      FlagHistory(states, steps, i - 1);
      assert Enabled(states[i - 1], steps[i - 1]);
      FlagStep(states[i - 1], steps[i - 1]);
      HistoryStep(steps, i - 1);
    }
  }

  lemma NothingYet(s: State, steps: seq<Step>)
    requires Initial(s)
    ensures 0 < |s.cores| && s.cores[0].pc != Parked && !Cleared(steps, 0)
  {
  }

  lemma FlagStep(s: State, step: Step)
    requires Enabled(s, step) && 0 < |s.cores|
    ensures |Apply(s, step).cores| == |s.cores|
    ensures Apply(s, step).cores[0].pc == Parked <==> s.cores[0].pc == Parked || step.ClearRunning?
    ensures s.cores[0].pc == Parked ==> !step.ClearRunning?
    ensures Apply(s, step).running == (if step.Arm? then true else if step.ClearRunning? then false else s.running)
  {
    hide Trigger, Clear, All, ArmLast;
  }

  lemma HistoryStep(steps: seq<Step>, i: nat)
    requires i < |steps|
    ensures Cleared(steps, i + 1) <==> Cleared(steps, i) || steps[i].ClearRunning?
    ensures Rearmed(steps, i + 1) <==> Rearmed(steps, i) || (Cleared(steps, i) && steps[i].Arm?)
    ensures !Cleared(steps, i) ==> !Rearmed(steps, i)
  {
    if Cleared(steps, i) && steps[i].Arm? {
      var k :| 0 <= k < i && steps[k].ClearRunning?;
      assert Rearmed(steps, i + 1);
    }
  }

  /**
   * Every run has at most nine steps for each core. When none is left to take and the cores were fetched, they are
   * all parked, and the flag is set exactly if a start has set it again after core 0 cleared it.
   */
  lemma RunsComplete(states: seq<State>, steps: seq<Step>)
    requires IsRun(states, steps)
    ensures CoreSteps(steps) <= 9 * |states[0].cores| && 0 < |states[|steps|].cores|
    ensures var s := states[|steps|];
            (forall step :: IsCoreStep(step) ==> !Enabled(s, step)) && s.cores[0].pc != Off ==>
              && (forall c :: 0 <= c < |s.cores| ==> s.cores[c].pc == Parked)
              && (s.running <==> Rearmed(steps, |steps|))
  {
    var s := states[|steps|];
    StepsCounted(states, steps, |steps|);
    assert steps[..|steps|] == steps;
    RunKeepsInvariant(states, steps, |steps|);
    FlagHistory(states, steps, |steps|);
    hide IsRun, IsCoreStep, Enabled, Rearmed, Cleared;
    if (forall step :: IsCoreStep(step) ==> !Enabled(s, step)) && s.cores[0].pc != Off {
      forall c | 0 <= c < |s.cores|
        ensures s.cores[c].pc == Parked
      {
        if s.cores[c].pc != Parked {
          var step := NoDeadlock(s, c);
        }
      }
    }
  }
}
