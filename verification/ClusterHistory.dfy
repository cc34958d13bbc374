// What the steps of a run say about its states: which functions were passed, and what they returned.
module ClusterHistory {
  import opened Cluster
  import opened ClusterRuns

  /** The functions that were passed to `cluster_start` in the first `n` steps. */
  function Given(steps: seq<Step>, n: nat): (s: seq<int>)
    requires n <= |steps|
  {
    if n == 0 then [] else Given(steps, n - 1) + (if steps[n - 1].Store? then [steps[n - 1].newEntry] else [])
  }

  lemma StartsStep(s: State, step: Step)
    requires Enabled(s, step)
    ensures |Apply(s, step).starts| == |s.starts| + (if step.Store? then 1 else 0)
    ensures step.Store? ==> Apply(s, step).starts[|s.starts|].entry == step.newEntry
    ensures forall k :: 0 <= k < |s.starts| ==> Apply(s, step).starts[k].entry == s.starts[k].entry
  {
    hide Trigger, Clear, All;
  }

  /** The starts in the history are those of the steps. */
  lemma {:induction false} StartsAreGiven(states: seq<State>, steps: seq<Step>, i: nat)
    requires IsRun(states, steps) && i < |states|
    ensures |states[i].starts| == |Given(steps, i)|
    ensures forall k :: 0 <= k < |states[i].starts| ==> states[i].starts[k].entry == Given(steps, i)[k]
  {
    hide Enabled, Apply;
    if 0 < i {
      hide Initial;
      StartsAreGiven(states, steps, i - 1);
      assert Enabled(states[i - 1], steps[i - 1]);
      StartsStep(states[i - 1], steps[i - 1]);
    }
  }

  /** Once core `c` is back with a value it stays so. */
  lemma ResultStep(s: State, step: Step, c: nat)
    requires Enabled(s, step) && c < |s.cores|
    ensures |Apply(s, step).cores| == |s.cores|
    ensures HasReturned(s.cores[c]) ==>
              HasReturned(Apply(s, step).cores[c]) && Apply(s, step).cores[c].result == s.cores[c].result
    ensures HasReturned(Apply(s, step).cores[c]) && !HasReturned(s.cores[c]) ==> step.Return? && step.c == c
    ensures step.Return? && step.c == c ==>
              !HasReturned(s.cores[c]) && HasReturned(Apply(s, step).cores[c]) && Apply(s, step).cores[c].result == step.value
  {
    hide Trigger, Clear, All, ArmLast;
  }

  lemma {:induction false} SameCores(states: seq<State>, steps: seq<Step>, i: nat)
    requires IsRun(states, steps) && i < |states|
    ensures |states[i].cores| == |states[0].cores|
  {
    StepsCounted(states, steps, i);
  }

  /** What the entry function returned to a core is that core's result from then on, over the whole run. */
  lemma {:induction false} ReturnedValueStays(states: seq<State>, steps: seq<Step>, k: nat, j: nat, c: nat, value: int)
    requires IsRun(states, steps) && k < j < |states| && steps[k] == Return(c, value)
    ensures c < |states[j].cores| && HasReturned(states[j].cores[c]) && states[j].cores[c].result == value
    decreases j
  {
    hide Initial, HasReturned, Enabled, Apply;
    SameCores(states, steps, j);
    SameCores(states, steps, j - 1);
    SameCores(states, steps, k);
    ReturnFits(states[k], steps[k]);
    assert Enabled(states[j - 1], steps[j - 1]);
    ResultStep(states[j - 1], steps[j - 1], c);
    if k < j - 1 {
      ReturnedValueStays(states, steps, k, j - 1, c, value);
    }
  }

  lemma NoneBackAtFirst(states: seq<State>, steps: seq<Step>, c: nat)
    requires IsRun(states, steps) && c < |states[0].cores|
    ensures !HasReturned(states[0].cores[c])
  {
    hide Enabled, Apply;
  }

  lemma ReturnFits(s: State, step: Step)
    requires Enabled(s, step) && step.Return?
    ensures step.c < |s.cores|
  {
  }

  /** A core that is back has returned in some step, with that value. */
  lemma {:induction false} ReturnedBy(states: seq<State>, steps: seq<Step>, i: nat, c: nat) returns (k: nat)
    requires IsRun(states, steps) && i < |states| && c < |states[i].cores| && HasReturned(states[i].cores[c])
    ensures k < i && steps[k] == Return(c, states[i].cores[c].result)
    decreases i
  {
    hide Initial, Enabled, Apply, HasReturned;
    k := 0;
    if i == 0 {
      NoneBackAtFirst(states, steps, c);
    } else {
      SameCores(states, steps, i);
      SameCores(states, steps, i - 1);
      assert Enabled(states[i - 1], steps[i - 1]);
      ResultStep(states[i - 1], steps[i - 1], c);
      if HasReturned(states[i - 1].cores[c]) {
        k := ReturnedBy(states, steps, i - 1, c);
      } else {
        k := i - 1;
      }
    }
  }

  /**
   * Once `cluster_running` has been set and is 0 again, every core is back from the function of the start that was the
   * latest one when it entered, and `cluster_retval` is the value that the function has returned to core 0.
   */
  lemma FlagMeansDone(states: seq<State>, steps: seq<Step>, i: nat, d: nat)
    requires IsRun(states, steps) && i < |states| && d < |states[i].cores|
    requires 0 < states[i].arms && !states[i].running
    ensures var core := states[i].cores[d];
            && 0 <= core.start < |Given(steps, i)| && core.ran == Given(steps, i)[core.start]
            && exists k :: 0 <= k < i && steps[k] == Return(d, core.result)
    ensures exists k :: 0 <= k < i && steps[k] == Return(0, states[i].retval)
  {
    FlagCleared(states, steps, i, d);
    FlagCleared(states, steps, i, 0);
    hide IsRun, HasReturned;
    StartsAreGiven(states, steps, i);
    var k := ReturnedBy(states, steps, i, d);
    var k0 := ReturnedBy(states, steps, i, 0);
  }
}
