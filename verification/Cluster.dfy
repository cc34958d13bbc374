// Starting the cluster and waiting for it, kernel/cluster.c, as an interleaving of the controller's and the cores' steps.
module Cluster {
  import opened Common

  /** Where a core is in `cluster_entry_stub`. */
  datatype Pc =
    | Off           // not fetched yet
    | Booted        // before `cluster_core_init`
    | MaskSet       // trigger mask of the barrier written
    | Ready         // target mask written as well
    | Waiting1      // in the first barrier
    | Running       // inside the entry function
    | Returned      // back from it
    | Waiting2      // in the second barrier
    | Released      // past it
    | Stored        // core 0 only: return value stored
    | Parked        // in `pos_wait_forever`

  /**
   * `ran` is the entry function a core has called and `result` what it returned; `start` is the number of the start
   * that was the latest one then.
   */
  datatype Core = Core(pc: Pc, ran: int, start: int, result: int)

  /** A call of `cluster_start`: what was passed, and whether it got as far as setting `cluster_running`. */
  datatype Start = Start(entry: int, armed: bool)

  /** Where the controller is: outside the protocol, in `cluster_start`, in `cluster_wait` or back from it. */
  datatype Control = Idle | Allocating | Arming | Fetching | Polling | Reading | Seen(value: int)

  /** The event unit's barrier: cores that have arrived, and cores whose wake-up event is pending. */
  datatype Barrier = Barrier(triggerMask: set<nat>, targetMask: set<nat>, arrived: set<nat>, events: set<nat>)

  /**
   * `entry`, `running` and `retval` are the shared variables. `starts` is the history of starts, `arms` how many set the
   * flag. `stacks` tells whether the stacks of all cores fit the L1 heap: every start rebuilds that heap from the same
   * constants and asks for the same size, so it holds for all starts or for none (see ClusterStacks).
   */
  datatype State = State(cores: seq<Core>, barrier: Barrier, entry: int, running: bool, retval: int, control: Control, arms: nat, starts: seq<Start>, stacks: bool)

  datatype Step =
    | Store(newEntry: int) | NoStacks | HasStacks | Arm | Fetch
    | SetMask(c: nat) | SetTarget(c: nat) | Arrive1(c: nat) | Wake1(c: nat) | Return(c: nat, value: int)
    | Arrive2(c: nat) | Wake2(c: nat) | StoreRetval | ClearRunning | Park(c: nat)
    | Wait | PollBusy | PollDone | ReadRetval

  function All(n: nat): (r: set<nat>)
    ensures forall c: nat :: c in r <==> c < n
  {
    if n == 0 then {} else All(n - 1) + {n - 1}
  }

  /** Before anything has happened, with `n` cores. */
  predicate Initial(s: State)
  {
    && 0 < |s.cores| && (forall c :: 0 <= c < |s.cores| ==> s.cores[c].pc == Off)
    && s.barrier == Barrier({}, {}, {}, {}) && !s.running && s.retval == 0 && s.control == Idle && s.arms == 0 && s.starts == []
  }

  predicate AtPc(s: State, c: nat, pc: Pc)
  {
    c < |s.cores| && s.cores[c].pc == pc
  }

  predicate Enabled(s: State, step: Step)
  {
    match step
    case Store(_) => s.control == Idle || s.control.Seen?
    case NoStacks => s.control == Allocating && !s.stacks
    case HasStacks => s.control == Allocating && s.stacks
    case Arm => s.control == Arming
    case Fetch => s.control == Fetching
    case SetMask(c) => AtPc(s, c, Booted)
    case SetTarget(c) => AtPc(s, c, MaskSet)
    case Arrive1(c) => AtPc(s, c, Ready)
    case Wake1(c) => AtPc(s, c, Waiting1) && c in s.barrier.events
    case Return(c, _) => AtPc(s, c, Running)
    case Arrive2(c) => AtPc(s, c, Returned)
    case Wake2(c) => AtPc(s, c, Waiting2) && c in s.barrier.events
    case StoreRetval => AtPc(s, 0, Released)
    case ClearRunning => AtPc(s, 0, Stored)
    case Park(c) => 0 < c && AtPc(s, c, Released)
    case Wait => s.control == Idle || s.control.Seen?
    case PollBusy => s.control == Polling && s.running
    case PollDone => s.control == Polling && !s.running
    case ReadRetval => s.control == Reading
  }

  function Go(s: State, c: nat, core: Core): State
    requires c < |s.cores|
  {
    s.(cores := s.cores[c := core])
  }

  /** Core `c` arrives; once all cores of the trigger mask have, the barrier is reset and the targets get their event. */
  function Trigger(b: Barrier, c: nat): Barrier
  {
    if b.triggerMask <= b.arrived + {c} then b.(arrived := {}, events := b.events + b.targetMask)
    else b.(arrived := b.arrived + {c})
  }

  function Clear(b: Barrier, c: nat): Barrier
  {
    b.(events := b.events - {c})
  }

  /** Fetching wakes the cores that are off; the others do not notice. */
  function Boot(core: Core): Core
  {
    if core.pc == Off then core.(pc := Booted) else core
  }

  /** The latest start has set the flag. */
  function ArmLast(starts: seq<Start>): (r: seq<Start>)
    ensures |r| == |starts|
  {
    if starts == [] then [] else starts[|starts| - 1 := starts[|starts| - 1].(armed := true)]
  }

  function Apply(s: State, step: Step): State
    requires Enabled(s, step)
  {
    var n := |s.cores|;
    match step
    case Store(e) => s.(entry := e, starts := s.starts + [Start(e, false)], control := Allocating)
    case NoStacks => s.(control := Idle)
    case HasStacks => s.(control := Arming)
    case Arm => s.(running := true, arms := s.arms + 1, starts := ArmLast(s.starts), control := Fetching)
    case Fetch => s.(cores := seq(n, c requires 0 <= c < n => Boot(s.cores[c])), control := Idle)
    case SetMask(c) => Go(s, c, s.cores[c].(pc := MaskSet)).(barrier := s.barrier.(triggerMask := All(n)))
    case SetTarget(c) => Go(s, c, s.cores[c].(pc := Ready)).(barrier := s.barrier.(targetMask := All(n)))
    case Arrive1(c) => Go(s, c, s.cores[c].(pc := Waiting1)).(barrier := Trigger(s.barrier, c))
    case Wake1(c) => Go(s, c, s.cores[c].(pc := Running, ran := s.entry, start := |s.starts| - 1)).(barrier := Clear(s.barrier, c))
    case Return(c, v) => Go(s, c, s.cores[c].(pc := Returned, result := v))
    case Arrive2(c) => Go(s, c, s.cores[c].(pc := Waiting2)).(barrier := Trigger(s.barrier, c))
    case Wake2(c) => Go(s, c, s.cores[c].(pc := Released)).(barrier := Clear(s.barrier, c))
    case StoreRetval => Go(s, 0, s.cores[0].(pc := Stored)).(retval := s.cores[0].result)
    case ClearRunning => Go(s, 0, s.cores[0].(pc := Parked)).(running := false)
    case Park(c) => Go(s, c, s.cores[c].(pc := Parked))
    case Wait => s.(control := Polling)
    case PollBusy => s
    case PollDone => s.(control := Reading)
    case ReadRetval => s.(control := Seen(s.retval))
  }

  // ----- What every step keeps

  /** How often core `c` has gone through the barrier. */
  function Passed(core: Core): nat
  {
    match core.pc
    case Off | Booted | MaskSet | Ready | Waiting1 => 0
    case Running | Returned | Waiting2 => 1
    case Released | Stored | Parked => 2
  }

  predicate Waits(core: Core)
  {
    core.pc == Waiting1 || core.pc == Waiting2
  }

  /**
   * The barrier in round `round`: nobody is a whole round ahead, whoever waits from the round before has its event
   * pending, whoever waits in this round has arrived, and somebody has not.
   */
  ghost predicate Round(cores: seq<Core>, b: Barrier, round: nat)
  {
    && (forall c :: 0 <= c < |cores| ==> InRound(cores[c], c, b, round))
    && (forall c :: c in b.arrived || c in b.events ==> c < |cores|)
    && (round < 2 ==> exists c :: 0 <= c < |cores| && !(Waits(cores[c]) && Passed(cores[c]) == round))
  }

  ghost predicate InRound(core: Core, c: nat, b: Barrier, round: nat)
  {
    && (Passed(core) == round || (Passed(core) + 1 == round && Waits(core)))
    && (c in b.events <==> Waits(core) && Passed(core) + 1 == round)
    && (c in b.arrived <==> Waits(core) && Passed(core) == round)
  }

  ghost predicate Masks(cores: seq<Core>, b: Barrier)
  {
    forall c :: 0 <= c < |cores| ==>
      && (cores[c].pc != Off && cores[c].pc != Booted ==> b.triggerMask == All(|cores|))
      && (cores[c].pc != Off && cores[c].pc != Booted && cores[c].pc != MaskSet ==> b.targetMask == All(|cores|))
  }

  /** Core 0 alone reports: it stores its own return value, then clears the flag. */
  ghost predicate Reported(s: State)
  {
    && (forall c :: 0 < c < |s.cores| ==> s.cores[c].pc != Stored)
    && 0 < |s.cores|
    && s.retval == (if s.cores[0].pc == Stored || s.cores[0].pc == Parked then s.cores[0].result else 0)
    && (0 < s.arms && s.cores[0].pc != Parked ==> s.running)
    && (s.arms == 0 ==> !s.running && s.control != Fetching)
    && (s.arms == 1 && s.cores[0].pc == Parked ==> !s.running)
  }

  /** Either no core has been fetched or all have, which needs the flag to have been set first. */
  ghost predicate Fetched(s: State)
  {
    || (forall c :: 0 <= c < |s.cores| ==> s.cores[c].pc == Off)
    || (0 < s.arms && forall c :: 0 <= c < |s.cores| ==> s.cores[c].pc != Off)
  }

  ghost predicate Entered(core: Core, starts: seq<Start>)
  {
    0 < Passed(core) ==> 0 <= core.start < |starts| && core.ran == starts[core.start].entry
  }

  /** Every core that has entered ran what the start it belongs to was given. */
  ghost predicate Entries(s: State)
  {
    && (forall c :: 0 <= c < |s.cores| ==> Entered(s.cores[c], s.starts))
    && (s.starts != [] ==> s.entry == s.starts[|s.starts| - 1].entry)
    && (0 < s.arms ==> s.starts != [])
  }

  /** The number of starts that set the flag. */
  function Armed(starts: seq<Start>): nat
  {
    if starts == [] then 0 else Armed(starts[..|starts| - 1]) + (if starts[|starts| - 1].armed then 1 else 0)
  }

  /** The history agrees with where the controller is. */
  ghost predicate History(s: State)
  {
    && s.arms == Armed(s.starts)
    && (s.control == Allocating || s.control == Arming ==> s.starts != [] && !s.starts[|s.starts| - 1].armed)
    && (s.control == Fetching ==> s.starts != [] && s.starts[|s.starts| - 1].armed)
  }

  /** With stacks every start sets the flag, except one that has not got there yet; without, none does. */
  ghost predicate Outcomes(s: State)
  {
    && (s.stacks ==> forall i :: 0 <= i < |s.starts| - 1 ==> s.starts[i].armed)
    && (s.stacks && s.starts != [] && s.control != Allocating && s.control != Arming ==> s.starts[|s.starts| - 1].armed)
    && (!s.stacks ==> s.arms == 0 && s.control != Arming && s.control != Fetching)
  }

  /** What a wait has seen still holds. */
  ghost predicate Observed(s: State)
  {
    && (s.control == Reading ==> !s.running)
    && (s.control.Seen? ==> !s.running && s.control.value == s.retval)
  }

  ghost predicate Invariant(s: State)
  {
    && Reported(s) && Fetched(s) && Entries(s) && History(s) && Outcomes(s) && Observed(s) && Masks(s.cores, s.barrier)
    && exists round: nat :: round <= 2 && Round(s.cores, s.barrier, round)
  }

  lemma RoundAfterMove(cores: seq<Core>, b: Barrier, round: nat, c: nat, core: Core)
    requires Round(cores, b, round) && c < |cores| && !Waits(cores[c]) && !Waits(core) && Passed(core) == Passed(cores[c])
    ensures Round(cores[c := core], b, round)
  {
    var next := cores[c := core];
    assert next[c] == core && !Waits(core);
  }

  lemma RoundAfterArrival(cores: seq<Core>, b: Barrier, round: nat, c: nat, core: Core)
    requires Round(cores, b, round) && c < |cores| && !Waits(cores[c]) && Waits(core) && Passed(core) == Passed(cores[c])
    requires b.triggerMask == b.targetMask == All(|cores|)
    ensures Round(cores[c := core], Trigger(b, c), if b.triggerMask <= b.arrived + {c} then round + 1 else round)
  {
    hide Waits, Passed;
    var next := cores[c := core];
    if b.triggerMask <= b.arrived + {c} {
      forall i | 0 <= i < |cores|
        ensures InRound(next[i], i, Trigger(b, c), round + 1)
      {
        assert i in b.arrived + {c};
        assert InRound(cores[i], i, b, round);
      }
      assert !(Waits(next[c]) && Passed(next[c]) == round + 1);
    } else {
      forall i | 0 <= i < |cores|
        ensures InRound(next[i], i, Trigger(b, c), round)
      {
        assert InRound(cores[i], i, b, round);
      }
      var i :| i in b.triggerMask && i !in b.arrived + {c};
      assert InRound(cores[i], i, b, round);
      assert !(Waits(next[i]) && Passed(next[i]) == round);
    }
  }

  lemma RoundAfterWake(cores: seq<Core>, b: Barrier, round: nat, c: nat, core: Core)
    requires Round(cores, b, round) && c in b.events && !Waits(core) && c < |cores| && Passed(core) == Passed(cores[c]) + 1
    ensures Round(cores[c := core], Clear(b, c), round)
  {
    hide Waits, Passed;
    var next := cores[c := core];
    forall i | 0 <= i < |cores|
      ensures InRound(next[i], i, Clear(b, c), round)
    {
      assert InRound(cores[i], i, b, round) && InRound(cores[c], c, b, round);
    }
    assert next[c] == core && !Waits(core);
  }

  lemma RoundAfterFetch(cores: seq<Core>, b: Barrier, round: nat)
    requires Round(cores, b, round)
    ensures Round(seq(|cores|, c requires 0 <= c < |cores| => Boot(cores[c])), b, round)
  {
    var next := seq(|cores|, c requires 0 <= c < |cores| => Boot(cores[c]));
    forall c | 0 <= c < |cores|
      ensures Waits(next[c]) == Waits(cores[c]) && Passed(next[c]) == Passed(cores[c])
    {
    }
    hide Waits, Passed, Boot;
    forall c | 0 <= c < |cores|
      ensures InRound(next[c], c, b, round)
    {
      assert InRound(cores[c], c, b, round);
    }
  }

  /** Setting a mask changes neither who has arrived nor who is woken. */
  lemma RoundIgnoresMasks(cores: seq<Core>, b: Barrier, round: nat, trigger: set<nat>, target: set<nat>)
    requires Round(cores, b, round)
    ensures Round(cores, b.(triggerMask := trigger, targetMask := target), round)
  {
    hide Waits, Passed;
    var b1 := b.(triggerMask := trigger, targetMask := target);
    forall c | 0 <= c < |cores|
      ensures InRound(cores[c], c, b1, round)
    {
      assert InRound(cores[c], c, b, round);
    }
  }

  lemma RoundKept(s: State, step: Step, round: nat) returns (next: nat)
    requires Enabled(s, step) && Round(s.cores, s.barrier, round) && Masks(s.cores, s.barrier) && round <= 2
    ensures round <= next <= 2 && Round(Apply(s, step).cores, Apply(s, step).barrier, next)
  {
    hide *;
    if step.Arrive1? || step.Arrive2? {
      next := RoundKeptByArrival(s, step, round);
    } else if step.Wake1? || step.Wake2? {
      RoundKeptByWake(s, step, round);
      next := round;
    } else if step.SetMask? || step.SetTarget? {
      RoundKeptBySetup(s, step, round);
      next := round;
    } else {
      RoundKeptByOthers(s, step, round);
      next := round;
    }
  }

  lemma RoundKeptByArrival(s: State, step: Step, round: nat) returns (next: nat)
    requires Enabled(s, step) && Round(s.cores, s.barrier, round) && Masks(s.cores, s.barrier) && round <= 2
    requires step.Arrive1? || step.Arrive2?
    ensures round <= next <= 2 && Round(Apply(s, step).cores, Apply(s, step).barrier, next)
  {
    hide Round, Masks, Trigger;
    next := ArrivalKeepsRound(s, step.c, Apply(s, step).cores[step.c], round);
  }

  lemma RoundKeptByWake(s: State, step: Step, round: nat)
    requires Enabled(s, step) && Round(s.cores, s.barrier, round) && (step.Wake1? || step.Wake2?)
    ensures Round(Apply(s, step).cores, Apply(s, step).barrier, round)
  {
    hide Round, Clear;
    RoundAfterWake(s.cores, s.barrier, round, step.c, Apply(s, step).cores[step.c]);
  }

  lemma RoundKeptBySetup(s: State, step: Step, round: nat)
    requires Enabled(s, step) && Round(s.cores, s.barrier, round) && (step.SetMask? || step.SetTarget?)
    ensures Round(Apply(s, step).cores, Apply(s, step).barrier, round)
  {
    hide Round, All;
    var t := Apply(s, step);
    RoundAfterMove(s.cores, s.barrier, round, step.c, t.cores[step.c]);
    RoundIgnoresMasks(t.cores, s.barrier, round, t.barrier.triggerMask, t.barrier.targetMask);
  }

  lemma RoundKeptByOthers(s: State, step: Step, round: nat)
    requires Enabled(s, step) && Round(s.cores, s.barrier, round)
    requires !(step.Arrive1? || step.Arrive2? || step.Wake1? || step.Wake2? || step.SetMask? || step.SetTarget?)
    ensures Round(Apply(s, step).cores, Apply(s, step).barrier, round)
  {
    hide Round, Boot, All, Trigger, Clear;
    var t := Apply(s, step);
    match step
    case Return(c, _) => RoundAfterMove(s.cores, s.barrier, round, c, t.cores[c]);
    case StoreRetval => RoundAfterMove(s.cores, s.barrier, round, 0, t.cores[0]);
    case ClearRunning => RoundAfterMove(s.cores, s.barrier, round, 0, t.cores[0]);
    case Park(c) => RoundAfterMove(s.cores, s.barrier, round, c, t.cores[c]);
    case Fetch => RoundAfterFetch(s.cores, s.barrier, round);
    case _ =>
  }

  lemma ArrivalKeepsRound(s: State, c: nat, core: Core, round: nat) returns (next: nat)
    requires Round(s.cores, s.barrier, round) && Masks(s.cores, s.barrier) && c < |s.cores|
    requires s.cores[c].pc == Ready || s.cores[c].pc == Returned
    requires Waits(core) && Passed(core) == Passed(s.cores[c])
    ensures round <= next <= 2 && Round(s.cores[c := core], Trigger(s.barrier, c), next)
  {
    RoundAfterArrival(s.cores, s.barrier, round, c, core);
    assert InRound(s.cores[c], c, s.barrier, round);
    hide Round, Masks, Trigger;
    next := if s.barrier.triggerMask <= s.barrier.arrived + {c} then round + 1 else round;
  }

  lemma MasksKept(s: State, step: Step)
    requires Enabled(s, step) && Masks(s.cores, s.barrier)
    ensures Masks(Apply(s, step).cores, Apply(s, step).barrier)
  {
    hide All;
  }

  /** Core 0 can be past the second barrier, or the flag cleared, only by its own steps. */
  lemma ReportedKept(s: State, step: Step)
    requires Enabled(s, step) && Reported(s) && Fetched(s)
    ensures Reported(Apply(s, step))
  {
    hide Trigger, Clear, All;
  }

  lemma FetchedKept(s: State, step: Step)
    requires Enabled(s, step) && Fetched(s) && Reported(s)
    ensures Fetched(Apply(s, step))
  {
    hide Trigger, Clear, All;
  }

  lemma EntriesKept(s: State, step: Step)
    requires Enabled(s, step) && Entries(s) && Fetched(s) && History(s)
    ensures Entries(Apply(s, step))
  {
    hide Trigger, Clear, All, Armed, Entered;
    forall c | 0 <= c < |Apply(s, step).cores|
      ensures Entered(Apply(s, step).cores[c], Apply(s, step).starts)
    {
      EnteredKept(s, step, c);
    }
  }

  lemma EnteredKept(s: State, step: Step, c: nat)
    requires Enabled(s, step) && Entries(s) && Fetched(s) && c < |s.cores|
    ensures c < |Apply(s, step).cores| && Entered(Apply(s, step).cores[c], Apply(s, step).starts)
  {
    hide Trigger, Clear, All;
    assert Entered(s.cores[c], s.starts);
  }

  lemma HistoryKept(s: State, step: Step)
    requires Enabled(s, step) && History(s)
    ensures History(Apply(s, step))
  {
    hide Trigger, Clear, All, Armed;
    ArmedGrows(s.starts, if step.Store? then step.newEntry else 0);
  }

  lemma OutcomesKept(s: State, step: Step)
    requires Enabled(s, step) && Outcomes(s)
    ensures Outcomes(Apply(s, step)) && Apply(s, step).stacks == s.stacks
  {
    hide Trigger, Clear, All;
  }

  lemma ArmedGrows(starts: seq<Start>, entry: int)
    ensures Armed(starts + [Start(entry, false)]) == Armed(starts)
    ensures starts != [] && !starts[|starts| - 1].armed ==> Armed(ArmLast(starts)) == Armed(starts) + 1
  {
    assert (starts + [Start(entry, false)])[..|starts|] == starts;
    if starts != [] {
      assert ArmLast(starts)[..|starts| - 1] == starts[..|starts| - 1];
    }
  }

  lemma ObservedKept(s: State, step: Step)
    requires Enabled(s, step) && Observed(s) && Reported(s) && Fetched(s)
    ensures Observed(Apply(s, step))
  {
    hide Trigger, Clear, All;
  }

  lemma InvariantKept(s: State, step: Step)
    requires Enabled(s, step) && Invariant(s)
    ensures Invariant(Apply(s, step))
  {
    hide Enabled, Apply, Reported, Fetched, Entries, History, Outcomes, Observed, Masks, Round;
    var round: nat :| round <= 2 && Round(s.cores, s.barrier, round);
    var next := RoundKept(s, step, round);
    MasksKept(s, step);
    ReportedKept(s, step);
    FetchedKept(s, step);
    EntriesKept(s, step);
    HistoryKept(s, step);
    OutcomesKept(s, step);
    ObservedKept(s, step);
  }
}
