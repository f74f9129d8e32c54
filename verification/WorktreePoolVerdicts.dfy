/** Where the pool's timeout verdicts come from: a run of that hunk's tests that timed out. */
module WorktreePoolVerdicts {
  import opened Common
  import opened WorktreePool

  /** Before state k a worker's wait for the tests of this item ran out. */
  ghost predicate RanOut(states: seq<State>, steps: seq<Step>, k: nat, item: nat) {
    exists j: nat :: RanOutAt(states, steps, k, j, item)
  }

  predicate RanOutAt(states: seq<State>, steps: seq<Step>, k: nat, j: nat, item: nat) {
    && j < k <= |steps| && j < |states| && steps[j].TestsTimeout? && steps[j].w < |states[j].workers|
    && states[j].workers[steps[j].w].Running? && states[j].workers[steps[j].w].item == item
  }

  /** Only these items are late, or have a timeout as verdict. */
  ghost predicate LateOnly(s: State, items: iset<nat>) {
    && (forall w | 0 <= w < |s.workers| :: PhaseLateOnly(s.workers[w], items))
    && (forall i | i in s.results && s.results[i].Timeout? :: i in items)
  }

  ghost predicate PhaseLateOnly(phase: Phase, items: iset<nat>) {
    match phase
    case Running(i, _, _, late) => late ==> i in items
    case Returned(i, _, o) => o == Some(Timeout) ==> i in items
    case Restored(i, _, o) => o == Some(Timeout) ==> i in items
    case _ => true
  }

  lemma MainKeepsLate(c: Config, s: State, step: Step, items: iset<nat>)
    requires Enabled(c, s, step) && !OfWorker(step) && LateOnly(s, items)
    ensures LateOnly(After(c, s, step), items)
  {
    assert After(c, s, step).workers == s.workers && After(c, s, step).results == s.results;
  }

  lemma WorkerKeepsLate(c: Config, s: State, step: Step, items: iset<nat>)
    requires Enabled(c, s, step) && OfWorker(step) && LateOnly(s, items)
    requires step.TestsTimeout? ==> s.workers[step.w].item in items
    ensures LateOnly(After(c, s, step), items)
  {
    var t, w := After(c, s, step), step.w;
    assert PhaseLateOnly(s.workers[w], items);
    assert |t.workers| == |s.workers| && forall v | 0 <= v < |s.workers| && v != w :: t.workers[v] == s.workers[v];
    PhaseAfter(c, s, step, items);
  }

  lemma PhaseAfter(c: Config, s: State, step: Step, items: iset<nat>)
    requires Enabled(c, s, step) && OfWorker(step) && PhaseLateOnly(s.workers[step.w], items)
    requires step.TestsTimeout? ==> s.workers[step.w].item in items
    ensures PhaseLateOnly(After(c, s, step).workers[step.w], items)
    ensures forall i | i in After(c, s, step).results && After(c, s, step).results[i].Timeout? ::
              i in items || (i in s.results && s.results[i].Timeout?)
  {
  }

  ghost function Overdue(states: seq<State>, steps: seq<Step>, k: nat): iset<nat> {
    iset i: nat | RanOut(states, steps, k, i)
  }

  lemma {:induction false} LateRanOut(c: Config, states: seq<State>, steps: seq<Step>, k: nat)
    requires WellFormed(c) && Run(c, states, steps) && k < |states|
    ensures LateOnly(states[k], Overdue(states, steps, k))
    decreases k
  {
    if k > 0 {
      LateRanOut(c, states, steps, k - 1);
      OverdueGrows(states, steps, k - 1);
      var s, step := states[k - 1], steps[k - 1];
      assert Enabled(c, s, step) && states[k] == After(c, s, step);
      hide Run, WellFormed, LateOnly, Overdue, After, Enabled;
      LateStep(c, s, step, Overdue(states, steps, k - 1), Overdue(states, steps, k));
    }
  }

  /** More items as the run goes on, and the one whose wait just ran out. */
  lemma OverdueGrows(states: seq<State>, steps: seq<Step>, k: nat)
    requires k < |steps| && k < |states|
    ensures Overdue(states, steps, k) <= Overdue(states, steps, k + 1)
    ensures var w := if steps[k].TestsTimeout? then steps[k].w else |states[k].workers|;
            w < |states[k].workers| && states[k].workers[w].Running? ==>
              states[k].workers[w].item in Overdue(states, steps, k + 1)
  {
    forall i: nat | RanOut(states, steps, k, i)
      ensures RanOut(states, steps, k + 1, i)
    {
      var j: nat :| RanOutAt(states, steps, k, j, i);
      assert RanOutAt(states, steps, k + 1, j, i);
    }
    if steps[k].TestsTimeout? && steps[k].w < |states[k].workers| && states[k].workers[steps[k].w].Running? {
      assert RanOutAt(states, steps, k + 1, k, states[k].workers[steps[k].w].item);
    }
  }

  lemma LateStep(c: Config, s: State, step: Step, before: iset<nat>, now: iset<nat>)
    requires Enabled(c, s, step) && LateOnly(s, before) && before <= now
    requires var w := if step.TestsTimeout? then step.w else |s.workers|;
             w < |s.workers| && s.workers[w].Running? ==> s.workers[w].item in now
    ensures LateOnly(After(c, s, step), now)
  {
    LateMore(s, before, now);
    if OfWorker(step) {
      assert step.TestsTimeout? ==> step.w < |s.workers| && s.workers[step.w].Running?;
      hide LateOnly, After;
      WorkerKeepsLate(c, s, step, now);
    } else {
      hide LateOnly, After;
      MainKeepsLate(c, s, step, now);
    }
  }

  lemma LateMore(s: State, before: iset<nat>, now: iset<nat>)
    requires LateOnly(s, before) && before <= now
    ensures LateOnly(s, now)
  {
    forall w | 0 <= w < |s.workers|
      ensures PhaseLateOnly(s.workers[w], now)
    {
      assert PhaseLateOnly(s.workers[w], before);
    }
  }

  /** A hunk has a timeout as its verdict only if the wait for its tests ran out. */
  lemma TimeoutsAreReal(c: Config, states: seq<State>, steps: seq<Step>, k: nat, item: nat)
    requires WellFormed(c) && Run(c, states, steps) && k < |states|
    requires item in states[k].results && states[k].results[item] == Timeout
    ensures RanOut(states, steps, k, item)
  {
    LateRanOut(c, states, steps, k);
  }
}
