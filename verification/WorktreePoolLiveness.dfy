/** No run of the worktree pool blocks or goes on forever: it ends with the trees removed. */
module WorktreePoolLiveness {
  import opened WorktreePool
  import opened WorktreePoolSafety

  // ---------------------------------------------------------------- every step spends something

  function PhaseRank(phase: Phase): nat {
    match phase
    case Idle => 0
    case Waiting(_) => 9
    case Holding(_, _) => 8
    case Written(_, _) => 7
    case Running(_, _, _, late) => if late then 3 else 4
    case Returned(_, _, _) => 2
    case Restored(_, _, _) => 1
  }

  function MainRank(main: Main): nat {
    match main
    case Ready => 14
    case Spawned(_) => 12
    case Registered(_) => 11
    case Judging(_, late) => if late then 8 else 10
    case Expired(_) => 9
    case Pooled => 7
    case Unwinding(_) => 6
    case Shielded(_) => 5
    case Stopped(_) => 4
    case Draining(_) => 3
    case Cleaned(_) => 2
    case Escaped => 2
  }

  function PhasesRank(workers: seq<Phase>): nat {
    if workers == [] then 0 else PhasesRank(workers[..|workers| - 1]) + PhaseRank(workers[|workers| - 1])
  }

  function LiveCount(procs: seq<Proc>): nat {
    if procs == [] then 0
    else LiveCount(procs[..|procs| - 1]) + (if procs[|procs| - 1].status.Live? then 1 else 0)
  }

  function Measure(s: State): nat {
    10 * |s.pending| + PhasesRank(s.workers) + LiveCount(s.procs) + MainRank(s.main)
  }

  lemma {:induction false} RankUpdate(workers: seq<Phase>, w: nat, phase: Phase)
    requires w < |workers|
    ensures PhasesRank(workers[w := phase]) + PhaseRank(workers[w]) == PhasesRank(workers) + PhaseRank(phase)
  {
    var n := |workers| - 1;
    var changed := workers[w := phase];
    if w == n {
      assert changed[..n] == workers[..n];
    } else {
      assert changed[..n] == workers[..n][w := phase];
      RankUpdate(workers[..n], w, phase);
    }
  }

  /** Ending processes never makes more of them live. */
  lemma {:induction false} FewerLive(before: seq<Proc>, after: seq<Proc>)
    requires |before| == |after|
    requires forall p | 0 <= p < |before| :: after[p].status.Live? ==> before[p].status.Live?
    ensures LiveCount(after) <= LiveCount(before)
    ensures (exists p | 0 <= p < |before| :: before[p].status.Live? && !after[p].status.Live?)
            ==> LiveCount(after) < LiveCount(before)
  {
    if before != [] {
      var n := |before| - 1;
      FewerLive(before[..n], after[..n]);
      if p :| 0 <= p < |before| && before[p].status.Live? && !after[p].status.Live? {
        if p < n {
          assert before[..n][p].status.Live? && !after[..n][p].status.Live?;
        }
      }
    }
  }

  /** And a start makes one more. */
  lemma OneMoreLive(before: seq<Proc>, after: seq<Proc>)
    requires |after| == |before| + 1
    requires forall p | 0 <= p < |before| :: after[p].status.Live? ==> before[p].status.Live?
    ensures LiveCount(after) <= LiveCount(before) + 1
  {
    var n := |before|;
    assert forall p | 0 <= p < n :: after[..n][p] == after[p];
    FewerLive(before, after[..n]);
  }

  predicate MovesNoWorker(step: Step) {
    OfMain(step) || step.Exit?
  }

  /** No step but a start makes a process live, and an exit ends one. */
  lemma MainStepEnds(c: Config, s: State, step: Step)
    requires Inv(c, s) && Enabled(c, s, step) && MovesNoWorker(step)
    ensures var t := After(c, s, step);
            && LiveCount(t.procs) <= LiveCount(s.procs) + (if step.SpawnBaseline? then 1 else 0)
            && (step.Exit? ==> LiveCount(t.procs) < LiveCount(s.procs))
  {
    var t := After(c, s, step);
    StepFrame(c, s, step);
    if step.Exit? {
      ExitEnds(c, s, step);
    }
    hide Enabled, After, Inv;
    if |t.procs| > |s.procs| {
      OneMoreLive(s.procs, t.procs);
    } else {
      FewerLive(s.procs, t.procs);
      if step.Exit? {
        assert s.procs[step.p].status.Live? && !t.procs[step.p].status.Live?;
      }
    }
  }

  predicate MainSpends(s: State, t: State, step: Step) {
    && |t.pending| <= |s.pending| && t.workers == s.workers
    && MainRank(t.main) + (if step.SpawnBaseline? then 2 else if step.Exit? then 0 else 1) <= MainRank(s.main)
  }

  lemma MainStepRanks(c: Config, s: State, step: Step)
    requires Enabled(c, s, step) && MovesNoWorker(step)
    ensures MainSpends(s, After(c, s, step), step)
  {
    if OfBaseline(step) {
      BaselineRanks(c, s, step);
    } else if OfMain(step) {
      EndRanks(c, s, step);
    }
  }

  lemma BaselineRanks(c: Config, s: State, step: Step)
    requires OfBaseline(step) && MainEnabled(c, s, step)
    ensures MainSpends(s, AfterMain(c, s, step), step)
  {
  }

  lemma EndRanks(c: Config, s: State, step: Step)
    requires OfMain(step) && !OfBaseline(step) && MainEnabled(c, s, step)
    ensures MainSpends(s, AfterMain(c, s, step), step)
  {
  }

  predicate AtWorker(step: Step, w: nat) {
    step == Take(w) || step == GetTree(w) || step == WriteReverted(w) || (step.WriteFails? && step.w == w)
    || step == StartTests(w) || step == StartFails(w) || step == TestsTimeout(w) || step == ReapTests(w)
    || step == Restore(w) || (step.RestoreFails? && step.w == w) || step == PutTree(w)
  }

  function Starts(s: State, step: Step): nat {
    if step.StartTests? && !s.stopping then 1 else 0
  }

  lemma WorkerStepEnds(c: Config, s: State, step: Step, w: nat)
    requires Inv(c, s) && Enabled(c, s, step) && AtWorker(step, w)
    ensures LiveCount(After(c, s, step).procs) <= LiveCount(s.procs) + Starts(s, step)
  {
    var t := After(c, s, step);
    StepFrame(c, s, step);
    hide Enabled, After, Inv, AtWorker, InterruptsAside, SameItems;
    if |t.procs| > |s.procs| {
      OneMoreLive(s.procs, t.procs);
    } else {
      FewerLive(s.procs, t.procs);
    }
  }

  lemma ExitEnds(c: Config, s: State, step: Step)
    requires Enabled(c, s, step) && step.Exit?
    ensures step.p < |s.procs| == |After(c, s, step).procs|
    ensures s.procs[step.p].status.Live? && !After(c, s, step).procs[step.p].status.Live?
  {
  }

  predicate WorkerSpends(s: State, t: State, step: Step, w: nat) {
    && w < |s.workers| == |t.workers| && t.workers == s.workers[w := t.workers[w]] && t.main == s.main
    && 10 * |t.pending| + PhaseRank(t.workers[w]) + Starts(s, step) < 10 * |s.pending| + PhaseRank(s.workers[w])
  }

  predicate BeforeTests(step: Step) {
    step.Take? || step.GetTree? || step.WriteReverted? || step.WriteFails? || step.StartTests?
  }

  lemma WorkerStepRanks(c: Config, s: State, step: Step, w: nat)
    requires Enabled(c, s, step) && AtWorker(step, w)
    ensures WorkerSpends(s, After(c, s, step), step, w)
  {
    if BeforeTests(step) {
      EarlyRanks(c, s, step, w);
    } else {
      LateRanks(c, s, step, w);
    }
  }

  lemma EarlyRanks(c: Config, s: State, step: Step, w: nat)
    requires OfWorker(step) && WorkerEnabled(c, s, step) && AtWorker(step, w) && BeforeTests(step)
    ensures WorkerSpends(s, AfterWorker(c, s, step), step, w)
  {
  }

  lemma LateRanks(c: Config, s: State, step: Step, w: nat)
    requires OfWorker(step) && WorkerEnabled(c, s, step) && AtWorker(step, w) && !BeforeTests(step)
    ensures WorkerSpends(s, AfterWorker(c, s, step), step, w)
  {
  }

  lemma WorkerStepSpends(c: Config, s: State, step: Step, w: nat)
    requires Inv(c, s) && Enabled(c, s, step) && AtWorker(step, w)
    ensures Measure(After(c, s, step)) < Measure(s)
  {
    WorkerStepEnds(c, s, step, w);
    WorkerStepRanks(c, s, step, w);
    RankUpdate(s.workers, w, After(c, s, step).workers[w]);
  }

  lemma StepSpends(c: Config, s: State, step: Step)
    requires Inv(c, s) && Enabled(c, s, step)
    ensures Measure(After(c, s, step)) < Measure(s)
  {
    if MovesNoWorker(step) {
      MainStepEnds(c, s, step);
      MainStepRanks(c, s, step);
    } else {
      WorkerStepSpends(c, s, step, step.w);
    }
  }

  lemma {:induction false} IdleRank(workers: seq<Phase>)
    requires forall w | 0 <= w < |workers| :: workers[w].Idle?
    ensures PhasesRank(workers) == 0
  {
    if workers != [] {
      IdleRank(workers[..|workers| - 1]);
    }
  }

  lemma {:induction false} SpentSoFar(c: Config, states: seq<State>, steps: seq<Step>, k: nat)
    requires WellFormed(c) && Run(c, states, steps) && k < |states|
    ensures Measure(states[k]) + k <= 10 * |c.items| + 14
    decreases k
  {
    if k == 0 {
      IdleRank(Init(c).workers);
    } else {
      SpentSoFar(c, states, steps, k - 1);
      RunIsGood(c, states, steps, k - 1);
      StepSpends(c, states[k - 1], steps[k - 1]);
    }
  }

  /** Every run is short: at most ten steps a hunk and fourteen more. */
  lemma RunsEnd(c: Config, states: seq<State>, steps: seq<Step>)
    requires WellFormed(c) && Run(c, states, steps)
    ensures |steps| <= 10 * |c.items| + 14
  {
    SpentSoFar(c, states, steps, |steps|);
  }

  // ---------------------------------------------------------------- and never blocks

  /** A step the program takes by itself: not an interrupt, a failing call or a process's end. */
  predicate OwnStep(step: Step) {
    !step.Interrupt? && !step.WriteFails? && !step.StartFails? && !step.RestoreFails? && !step.Exit?
  }

  /** A worker that holds a tree can always go on. */
  lemma HolderMoves(c: Config, s: State, w: nat) returns (step: Step)
    requires Good(c, s) && w < |s.workers| && HasTree(s.workers[w])
    ensures OwnStep(step) && Enabled(c, s, step)
  {
    assert TreeState(c, s, s.workers[w]);
    match s.workers[w] {
      case Holding(_, _) => step := WriteReverted(w);
      case Written(_, _) => step := StartTests(w);
      case Running(_, _, p, late) => step := if s.procs[p].status.Live? then TestsTimeout(w) else ReapTests(w);
      case Returned(_, _, _) => step := Restore(w);
      case Restored(_, _, _) => step := PutTree(w);
    }
  }

  /** Every tree is lost, and a worker waits for one. */
  predicate Hung(c: Config, s: State) {
    |s.lost| == c.jobs && exists w | 0 <= w < |s.workers| :: s.workers[w].Waiting?
  }

  /** With a worker inside check(item), some worker can go on, unless all hang. */
  lemma BusyWorkersMove(c: Config, s: State, w: nat) returns (step: Step)
    requires Good(c, s) && w < |s.workers| && !s.workers[w].Idle? && !Hung(c, s)
    ensures OwnStep(step) && Enabled(c, s, step)
  {
    if v :| 0 <= v < |s.workers| && HasTree(s.workers[v]) {
      step := HolderMoves(c, s, v);
    } else {
      NoTreeHeld(s.workers);
      assert s.workers[w].Waiting?;
      step := GetTree(w);
    }
  }

  lemma {:induction false} NoTreeHeld(workers: seq<Phase>)
    requires forall w | 0 <= w < |workers| :: !HasTree(workers[w])
    ensures Holders(workers) == 0
  {
    if workers != [] {
      NoTreeHeld(workers[..|workers| - 1]);
    }
  }

  /** The run has ended: the trees are removed, or an interrupt escaped the finally and the
      workers are done. */
  predicate Over(s: State) {
    s.main.Cleaned? || (s.main.Escaped? && AllIdle(s) && (s.pooled ==> s.pending == []))
  }

  /** Until then, unless it hangs, some step is possible: no other deadlock, at free.get() or
      anywhere, and no wait for a process that has no end. */
  lemma NeverBlocks(c: Config, s: State) returns (step: Step)
    requires Good(c, s) && !Over(s) && !Hung(c, s)
    ensures OwnStep(step) && Enabled(c, s, step)
  {
    if w :| 0 <= w < |s.workers| && !s.workers[w].Idle? {
      step := BusyWorkersMove(c, s, w);
    } else {
      match s.main {
        case Ready => step := SpawnBaseline;
        case Spawned(_) => step := RegisterBaseline;
        case Registered(_) => step := EnterBaseline;
        case Judging(p, _) => step := if s.procs[p].status.Live? then BaselineTimeout else ReapBaseline;
        case Expired(_) => step := KillBaseline;
        case Pooled => step := PooledMoves(c, s);
        case Unwinding(_) => step := IgnoreSignals;
        case Shielded(_) => step := StopAll;
        case Stopped(_) => step := CancelQueued;
        case Draining(_) => step := Cleanup;
        case Escaped => step := Take(0);
      }
    }
  }

  lemma PooledMoves(c: Config, s: State) returns (step: Step)
    requires Good(c, s) && s.main.Pooled? && AllIdle(s)
    ensures OwnStep(step) && Enabled(c, s, step)
  {
    if s.pending != [] {
      step := Take(0);
    } else if s.raised != {} {
      step := MainRaises;
    } else {
      forall i | 0 <= i < |c.items|
        ensures i in s.results
      {
        assert Somewhere(s, i);
      }
      step := Collected;
    }
  }

  /** The first interrupt came in the finally, before it had ignored the signals. */
  ghost predicate CaughtUnwinding(states: seq<State>, steps: seq<Step>, k: nat) {
    exists j | 0 <= j < k && j < |steps| && j < |states| :: steps[j] == Interrupt && states[j].main.Unwinding?
  }

  lemma {:induction false} EscapedIffCaught(c: Config, states: seq<State>, steps: seq<Step>, k: nat)
    requires WellFormed(c) && Run(c, states, steps) && k < |states|
    ensures states[k].main.Escaped? <==> CaughtUnwinding(states, steps, k)
    decreases k
  {
    hide Run, Enabled, After;
    RunLength(c, states, steps);
    if k == 0 {
      RunStart(c, states, steps);
    } else {
      EscapedIffCaught(c, states, steps, k - 1);
      RunStep(c, states, steps, k - 1);
      StepFrame(c, states[k - 1], steps[k - 1]);
      assert CaughtUnwinding(states, steps, k) <==>
          CaughtUnwinding(states, steps, k - 1) || (steps[k - 1] == Interrupt && states[k - 1].main.Unwinding?);
    }
  }

  /** Once all trees are lost under a waiting worker, it waits forever, and nothing is cleaned up. */
  lemma HungStays(c: Config, s: State, step: Step)
    requires Inv(c, s) && Enabled(c, s, step) && Hung(c, s)
    ensures Hung(c, After(c, s, step))
  {
    NoHolderWhenLost(c, s);
    var w :| 0 <= w < |s.workers| && s.workers[w].Waiting?;
    if OfWorker(step) {
      assert step.Take? && step.w != w;
      assert After(c, s, step).workers[w] == s.workers[w];
    } else {
      LostStays(c, s, step);
      assert After(c, s, step).workers[w].Waiting?;
    }
  }

  lemma LostStays(c: Config, s: State, step: Step)
    requires Enabled(c, s, step) && !OfWorker(step)
    ensures After(c, s, step).lost == s.lost && After(c, s, step).workers == s.workers
  {
    if OfMain(step) {
      MainLosesNone(c, s, step);
    }
  }

  lemma MainLosesNone(c: Config, s: State, step: Step)
    requires OfMain(step) && MainEnabled(c, s, step)
    ensures AfterMain(c, s, step).lost == s.lost && AfterMain(c, s, step).workers == s.workers
  {
  }

  lemma NoHolderWhenLost(c: Config, s: State)
    requires Partition(c, s) && |s.lost| == c.jobs
    ensures s.free == [] && forall w | 0 <= w < |s.workers| :: !HasTree(s.workers[w])
  {
    forall w | 0 <= w < |s.workers|
      ensures !HasTree(s.workers[w])
    {
      HolderCounts(s.workers, w);
    }
  }

  lemma {:induction false} HolderCounts(workers: seq<Phase>, w: nat)
    requires w < |workers|
    ensures HasTree(workers[w]) ==> Holders(workers) > 0
  {
    var n := |workers| - 1;
    if w < n {
      HolderCounts(workers[..n], w);
    }
  }

  lemma {:induction false} HungForever(c: Config, states: seq<State>, steps: seq<Step>, j: nat, k: nat)
    requires WellFormed(c) && Run(c, states, steps) && j <= k < |states| && Hung(c, states[j])
    ensures Hung(c, states[k]) && !states[k].main.Cleaned?
    decreases k
  {
    hide Run, Enabled, After;
    RunLength(c, states, steps);
    RunIsGood(c, states, steps, k);
    if j < k {
      HungForever(c, states, steps, j, k - 1);
      RunIsGood(c, states, steps, k - 1);
      RunStep(c, states, steps, k - 1);
      HungStays(c, states[k - 1], steps[k - 1]);
    }
  }

  /** So a run that cannot go on hangs, exactly if at some point every tree was lost under a
      waiting worker; else every worker is idle, and it has cleaned up exactly unless an
      interrupt came in the finally before signals were ignored. Then no hunk is left queued,
      and the trees stay behind. */
  lemma MaximalRunsCleanUp(c: Config, states: seq<State>, steps: seq<Step>)
    requires WellFormed(c) && Run(c, states, steps)
    requires forall step | OwnStep(step) :: !Enabled(c, states[|steps|], step)
    ensures var last := states[|steps|];
            && (Hung(c, last) <==> !Over(last))
            && (Hung(c, last) <==> exists k | 0 <= k < |states| :: Hung(c, states[k]))
            && (Over(last) ==> AllIdle(last) && (last.main.Cleaned? <==> !CaughtUnwinding(states, steps, |steps|)))
            && (Over(last) && !last.main.Cleaned? ==> last.main.Escaped? && (last.pooled ==> last.pending == []))
  {
    RunIsGood(c, states, steps, |steps|);
    EscapedIffCaught(c, states, steps, |steps|);
    RunLength(c, states, steps);
    var last := states[|steps|];
    hide Run, After;
    if !Over(last) && !Hung(c, last) {
      var step := NeverBlocks(c, last);
    }
    if k :| 0 <= k < |states| && Hung(c, states[k]) {
      HungForever(c, states, steps, k, |steps|);
    }
  }

  /** It happens with one job and two hunks: the write and the restoring write raise for the
      first, and the second waits for the tree; the run stops, and never cleans up. */
  lemma FailedRestoreHangs(c: Config, partial: string) returns (states: seq<State>, steps: seq<Step>)
    requires WellFormed(c) && c.jobs == 1 && |c.items| >= 2
    ensures Run(c, states, steps) && |states| == |steps| + 1
    ensures Hung(c, states[|steps|]) && forall step | OwnStep(step) :: !Enabled(c, states[|steps|], step)
  {
    hide Run;
    states, steps := LostRun(c, partial);
    states, steps := Extend(c, states, steps, MainRaises);
    states, steps := DrainedRun(c, states, steps);
    NothingLeft(c, states[|steps|]);
  }

  /** One worker, which waits for a lost tree. */
  predicate OneWaits(s: State) {
    s.lost == {0} && s.free == [] && |s.workers| == 1 && s.workers[0].Waiting?
  }

  lemma DrainedRun(c: Config, states: seq<State>, steps: seq<Step>)
    returns (more: seq<State>, taken: seq<Step>)
    requires Run(c, states, steps) && |states| == |steps| + 1
    requires states[|steps|].main.Unwinding? && OneWaits(states[|steps|])
    ensures Run(c, more, taken) && |more| == |taken| + 1
    ensures more[|taken|].main.Draining? && OneWaits(more[|taken|])
  {
    hide Run;
    more, taken := Extend(c, states, steps, IgnoreSignals);
    more, taken := Extend(c, more, taken, StopAll);
    more, taken := Extend(c, more, taken, CancelQueued);
  }

  lemma NothingLeft(c: Config, s: State)
    requires c.jobs == 1 && s.main.Draining? && OneWaits(s)
    ensures Hung(c, s) && forall step | OwnStep(step) :: !Enabled(c, s, step)
  {
  }

  lemma LostRun(c: Config, partial: string) returns (states: seq<State>, steps: seq<Step>)
    requires WellFormed(c) && c.jobs == 1 && |c.items| >= 2
    ensures Run(c, states, steps) && |states| == |steps| + 1
    ensures var s := states[|steps|];
            s.main.Pooled? && s.pooled && s.raised != {} && OneWaits(s)
  {
    hide Run;
    states, steps := PooledRun(c);
    states, steps := Extend(c, states, steps, Take(0));
    states, steps := Extend(c, states, steps, GetTree(0));
    states, steps := Extend(c, states, steps, WriteFails(0, partial));
    assert states[|steps|].workers[0].Returned? && states[|steps|].pending == Init(c).pending[1..];
    states, steps := Extend(c, states, steps, RestoreFails(0, partial));
    states, steps := Extend(c, states, steps, Take(0));
  }

  lemma PooledRun(c: Config) returns (states: seq<State>, steps: seq<Step>)
    requires WellFormed(c)
    ensures Run(c, states, steps) && |states| == |steps| + 1
    ensures var s := states[|steps|];
            && s.main.Pooled? && s.pooled && s.workers == Init(c).workers && s.trees == Init(c).trees
            && s.free == Init(c).free && s.pending == Init(c).pending && s.raised == {} && s.lost == {}
  {
    hide Run;
    states, steps := JudgingRun(c);
    states, steps := Extend(c, states, steps, Exit(0, true));
    states, steps := Extend(c, states, steps, ReapBaseline);
  }

  /** It happens: the tests fail on HEAD, and the interrupt comes right then. */
  lemma EscapeLeavesTheTrees(c: Config) returns (states: seq<State>, steps: seq<Step>)
    requires WellFormed(c)
    ensures Run(c, states, steps) && CaughtUnwinding(states, steps, |steps|)
    ensures var last := states[|states| - 1]; last.main.Escaped? && Over(last) && |last.trees| == c.jobs
  {
    hide Run;
    states, steps := JudgingRun(c);
    states, steps := Extend(c, states, steps, Exit(0, false));
    states, steps := Extend(c, states, steps, ReapBaseline);
    states, steps := Extend(c, states, steps, Interrupt);
    var k := |steps| - 1;
    assert steps[k] == Interrupt && states[k].main.Unwinding?;
  }
}
