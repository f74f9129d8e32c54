/** What every step of the worktree pool keeps, and what follows for every run. */
module WorktreePoolSafety {
  import opened Common
  import opened WorktreePool

  // ---------------------------------------------------------------- the invariant

  /** HEAD with one hunk put back. */
  ghost function WithHunk(c: Config, i: nat): Files
    requires i < |c.items|
  {
    c.head[c.items[i].path := c.items[i].reverted]
  }

  /** HEAD but for one file. */
  ghost predicate OffBy(files: Files, c: Config, i: nat)
    requires i < |c.items|
  {
    files.Keys == c.head.Keys && forall path | path in c.head && path != c.items[i].path :: files[path] == c.head[path]
  }

  function Holders(workers: seq<Phase>): nat {
    if workers == [] then 0
    else Holders(workers[..|workers| - 1]) + (if HasTree(workers[|workers| - 1]) then 1 else 0)
  }

  /** Every tree is free, or held by one worker, or lost, and never two of these. */
  ghost predicate Partition(c: Config, s: State) {
    && |s.workers| == |s.trees| == c.jobs
    && |s.free| + Holders(s.workers) + |s.lost| == c.jobs
    && (forall t | t in s.lost :: t < c.jobs)
    && (forall x | 0 <= x < |s.free| :: s.free[x] < c.jobs && s.free[x] !in s.lost)
    && (forall x, y | 0 <= x < y < |s.free| :: s.free[x] != s.free[y])
    && (forall w | 0 <= w < c.jobs && HasTree(s.workers[w]) ::
          s.workers[w].tree < c.jobs && s.workers[w].tree !in s.free && s.workers[w].tree !in s.lost)
    && (forall v, w | 0 <= v < w < c.jobs && HasTree(s.workers[v]) && HasTree(s.workers[w]) ::
          s.workers[v].tree != s.workers[w].tree)
  }

  /** What a tree holds, by where its worker is. */
  ghost predicate TreeState(c: Config, s: State, phase: Phase) {
    && (!phase.Idle? ==> phase.item < |c.items|)
    && (HasTree(phase) ==> phase.tree < |s.trees|)
    && match phase
       case Idle => true
       case Waiting(_) => true
       case Holding(_, t) => s.trees[t] == c.head
       case Written(i, t) => s.trees[t] == WithHunk(c, i)
       case Running(i, t, p, late) =>
         && s.trees[t] == WithHunk(c, i)
         && p < |s.procs| && p in s.live
         && s.procs[p].tree == t && s.procs[p].files == WithHunk(c, i)
         && (s.procs[p].status.Killed? ==> late || s.stopping)
         && (late ==> !s.procs[p].status.Live?)
       case Returned(i, t, o) => OffBy(s.trees[t], c, i) && (o.Some? ==> Genuine(c, s, i, o.value))
       case Restored(i, t, o) => s.trees[t] == c.head && (o.Some? ==> Genuine(c, s, i, o.value))
  }

  /** The verdict is that of a process that ran on HEAD with exactly this hunk put back; a
      failure may also be that of a run that was stopped. */
  ghost predicate Genuine(c: Config, s: State, i: nat, o: Outcome)
    requires i < |c.items|
  {
    match o
    case Pass => exists p: nat :: Tested(c, s, i, p) && s.procs[p].status == Done(true)
    case Fail => s.stopping || exists p: nat :: Tested(c, s, i, p) && s.procs[p].status == Done(false)
    case Timeout => exists p: nat :: Tested(c, s, i, p)
  }

  ghost predicate Tested(c: Config, s: State, i: nat, p: nat)
    requires i < |c.items|
  {
    p < |s.procs| && s.procs[p].files == WithHunk(c, i)
  }

  ghost predicate MainState(c: Config, s: State) {
    && (s.stopping <==> s.main.Stopped? || s.main.Draining? || s.main.Cleaned?)
    && (s.main.Spawned? ==> s.main.proc < |s.procs| && s.main.proc !in s.live)
    && (s.main.Registered? || s.main.Judging? || s.main.Expired? ==> s.main.proc < |s.procs| && s.main.proc in s.live)
    && (s.main.Judging? && s.main.late ==> !s.procs[s.main.proc].status.Live?)
    && (s.main.Ready? || s.main.Spawned? || s.main.Registered? || s.main.Judging? || s.main.Expired? ==>
          !s.pooled && s.results == map[])
    && (s.main.Pooled? ==> s.pooled) && (!s.pooled ==> forall w | 0 <= w < |s.workers| :: s.workers[w].Idle?)
    && (s.orphan.Some? ==> s.ignored && AtTheEnd(s.main) && s.orphan.value < |s.procs| && s.orphan.value !in s.live)
    && (s.main.Draining? || s.main.Cleaned? ==> s.pending == [])
    && (s.main.Cleaned? ==> forall w | 0 <= w < |s.workers| :: s.workers[w].Idle?)
  }

  predicate AtTheEnd(main: Main) {
    main.Unwinding? || main.Shielded? || main.Stopped? || main.Draining? || main.Cleaned?
  }

  /** A live process is registered, or about to be, or was never registered. */
  ghost predicate Accounted(s: State) {
    && (forall p | p in s.live :: p < |s.procs|)
    && (forall p | 0 <= p < |s.procs| && s.procs[p].status.Live? ::
          (p in s.live && !s.stopping) || s.main == Spawned(p) || s.orphan == Some(p))
  }

  ghost predicate Records(c: Config, s: State) {
    && (forall x | 0 <= x < |s.pending| :: s.pending[x] < |c.items|)
    && (forall i | i in s.results :: i < |c.items| && Genuine(c, s, i, s.results[i]))
  }

  ghost predicate Inv(c: Config, s: State) {
    && WellFormed(c)
    && Partition(c, s)
    && (forall w | 0 <= w < |s.workers| :: TreeState(c, s, s.workers[w]))
    && (forall x | 0 <= x < |s.free| :: s.trees[s.free[x]] == c.head)
    && MainState(c, s)
    && Accounted(s)
    && Records(c, s)
  }

  // ---------------------------------------------------------------- counting holders

  lemma {:induction false} HoldersUpdate(workers: seq<Phase>, w: nat, phase: Phase)
    requires w < |workers|
    ensures Holders(workers[w := phase]) + (if HasTree(workers[w]) then 1 else 0)
         == Holders(workers) + (if HasTree(phase) then 1 else 0)
  {
    var n := |workers| - 1;
    var changed := workers[w := phase];
    if w == n {
      assert changed[..n] == workers[..n];
    } else {
      assert changed[..n] == workers[..n][w := phase];
      HoldersUpdate(workers[..n], w, phase);
    }
  }

  lemma {:induction false} HoldersBound(workers: seq<Phase>, w: nat)
    requires w < |workers| && !HasTree(workers[w])
    ensures Holders(workers) < |workers|
  {
    HoldersAtMost(workers);
    var n := |workers| - 1;
    if w < n {
      assert workers[..n][w] == workers[w];
      HoldersBound(workers[..n], w);
    } else {
      HoldersAtMost(workers[..n]);
    }
  }

  lemma {:induction false} HoldersAtMost(workers: seq<Phase>)
    ensures Holders(workers) <= |workers|
  {
    if workers != [] {
      HoldersAtMost(workers[..|workers| - 1]);
    }
  }

  lemma {:induction false} NoHolders(workers: seq<Phase>)
    requires forall w | 0 <= w < |workers| :: workers[w].Idle?
    ensures Holders(workers) == 0
  {
    if workers != [] {
      NoHolders(workers[..|workers| - 1]);
    }
  }

  // ---------------------------------------------------------------- what any step leaves alone

  predicate Exits(step: Step, p: nat) {
    step.Exit? && step.p == p
  }

  /** Processes keep their tree and files and end once; none starts after stop. */
  predicate ProcsGoOn(s: State, t: State, step: Step) {
    && (|t.procs| == |s.procs| || (|t.procs| == |s.procs| + 1 && (step.SpawnBaseline? || step.StartTests?)))
    && (s.stopping ==> t.stopping && |t.procs| == |s.procs|)
    && forall p | 0 <= p < |s.procs| ::
         && t.procs[p].files == s.procs[p].files && t.procs[p].tree == s.procs[p].tree
         && (t.procs[p].status == s.procs[p].status || s.procs[p].status.Live?)
         && (t.procs[p].status.Live? ==> !Exits(step, p))
  }

  /** Every result was collected. */
  predicate Complete(main: Main) {
    (main.Unwinding? || main.Shielded? || main.Stopped? || main.Draining? || main.Cleaned?) && main.complete
  }

  /** What only an interrupt changes. */
  predicate InterruptsAside(s: State, t: State, step: Step) {
    && (s.orphan.None? ==> (t.orphan.Some? <==> step == Interrupt && Exposed(s.main) && t.orphan == Some(s.main.proc)))
    && (s.orphan.Some? && s.ignored ==> t.orphan == s.orphan)
    && (t.main.Escaped? <==> s.main.Escaped? || (step == Interrupt && s.main.Unwinding?))
    && (Complete(t.main) ==> Complete(s.main) || step.Collected?)
  }

  /** Every hunk stays with its worker, and none is queued again. */
  predicate SameItems(s: State, t: State) {
    && (t.pending == s.pending || t.pending == [])
    && t.results == s.results && t.raised == s.raised && |t.workers| == |s.workers|
    && forall w | 0 <= w < |s.workers| ::
         t.workers[w].Idle? == s.workers[w].Idle?
         && (!s.workers[w].Idle? ==> t.workers[w].item == s.workers[w].item)
  }

  predicate Frame(s: State, t: State, step: Step) {
    && ProcsGoOn(s, t, step) && InterruptsAside(s, t, step)
    && (step != CancelQueued && !step.Take? ==> t.pending == s.pending)
    && (!step.Take? && !step.PutTree? && !step.RestoreFails? ==> SameItems(s, t))
  }

  lemma StepFrame(c: Config, s: State, step: Step)
    requires Enabled(c, s, step)
    ensures Frame(s, After(c, s, step), step)
  {
    if OfMain(step) {
      MainFrame(c, s, step);
    } else if OfWorker(step) {
      WorkerFrame(c, s, step);
    }
  }

  predicate OfBaseline(step: Step) {
    step.SpawnBaseline? || step.RegisterBaseline? || step.EnterBaseline? || step.BaselineTimeout?
    || step.KillBaseline? || step.ReapBaseline?
  }

  lemma MainFrame(c: Config, s: State, step: Step)
    requires OfMain(step) && MainEnabled(c, s, step)
    ensures Frame(s, AfterMain(c, s, step), step)
  {
    if OfBaseline(step) {
      BaselineFrame(c, s, step);
    } else if step.Interrupt? {
      InterruptFrame(c, s);
    } else {
      EndFrame(c, s, step);
    }
  }

  lemma BaselineFrame(c: Config, s: State, step: Step)
    requires OfBaseline(step) && MainEnabled(c, s, step)
    ensures Frame(s, AfterMain(c, s, step), step)
  {
  }

  lemma InterruptFrame(c: Config, s: State)
    requires Interruptible(s)
    ensures Frame(s, Interrupted(s), Interrupt)
  {
  }

  lemma EndFrame(c: Config, s: State, step: Step)
    requires OfMain(step) && !OfBaseline(step) && !step.Interrupt? && MainEnabled(c, s, step)
    ensures Frame(s, AfterMain(c, s, step), step)
  {
  }

  predicate AfterTests(step: Step) {
    step.TestsTimeout? || step.ReapTests? || step.Restore? || step.RestoreFails? || step.PutTree?
  }

  lemma WorkerFrame(c: Config, s: State, step: Step)
    requires OfWorker(step) && WorkerEnabled(c, s, step)
    ensures Frame(s, AfterWorker(c, s, step), step)
  {
    if AfterTests(step) {
      LateFrame(c, s, step);
    } else {
      EarlyFrame(c, s, step);
    }
  }

  lemma LateFrame(c: Config, s: State, step: Step)
    requires OfWorker(step) && AfterTests(step) && WorkerEnabled(c, s, step)
    ensures Frame(s, AfterWorker(c, s, step), step)
  {
  }

  lemma EarlyFrame(c: Config, s: State, step: Step)
    requires OfWorker(step) && !AfterTests(step) && WorkerEnabled(c, s, step)
    ensures Frame(s, AfterWorker(c, s, step), step)
  {
  }

  // ---------------------------------------------------------------- inductiveness

  lemma InitInv(c: Config)
    requires WellFormed(c)
    ensures Inv(c, Init(c))
  {
    NoHolders(Init(c).workers);
  }

  /** Verdicts stay genuine while processes only end and stopping only begins. */
  lemma GenuineStays(c: Config, s: State, t: State, i: nat, o: Outcome)
    requires i < |c.items| && Genuine(c, s, i, o)
    requires s.stopping ==> t.stopping
    requires |s.procs| <= |t.procs|
    requires forall p | 0 <= p < |s.procs| ::
               t.procs[p].files == s.procs[p].files
                   && (s.procs[p].status.Done? ==> t.procs[p].status == s.procs[p].status)
    ensures Genuine(c, t, i, o)
  {
    match o {
      case Pass =>
        var p: nat :| Tested(c, s, i, p) && s.procs[p].status == Done(true);
        assert Tested(c, t, i, p);
      case Fail =>
        if !s.stopping {
          var p: nat :| Tested(c, s, i, p) && s.procs[p].status == Done(false);
          assert Tested(c, t, i, p);
        }
      case Timeout =>
        var p: nat :| Tested(c, s, i, p);
        assert Tested(c, t, i, p);
    }
  }

  lemma AllGenuineStay(c: Config, s: State, step: Step)
    requires Inv(c, s) && Enabled(c, s, step)
    ensures forall i, o | 0 <= i < |c.items| && Genuine(c, s, i, o) :: Genuine(c, After(c, s, step), i, o)
  {
    var t := After(c, s, step);
    StepFrame(c, s, step);
    hide Enabled, After, Inv;
    forall i, o | 0 <= i < |c.items| && Genuine(c, s, i, o)
      ensures Genuine(c, t, i, o)
    {
      GenuineStays(c, s, t, i, o);
    }
  }

  /** What the main thread and a process's end leave alone: no worker moves, no tree changes,
      and a worker's process neither leaves the list nor is killed but by stop. */
  ghost predicate Quiet(s: State, t: State) {
    && t.workers == s.workers && t.trees == s.trees && t.free == s.free && t.lost == s.lost
    && (s.stopping ==> t.stopping) && |s.procs| <= |t.procs|
    && (forall p | 0 <= p < |s.procs| ::
          t.procs[p].files == s.procs[p].files && t.procs[p].tree == s.procs[p].tree)
    && (forall w | 0 <= w < |s.workers| && s.workers[w].Running? ::
          && s.workers[w].proc < |s.procs| && s.workers[w].proc in t.live
          && (t.procs[s.workers[w].proc].status.Live? ==> s.procs[s.workers[w].proc].status.Live?)
          && (t.procs[s.workers[w].proc].status.Killed? ==> s.procs[s.workers[w].proc].status.Killed? || t.stopping))
  }

  lemma QuietKeepsTrees(c: Config, s: State, t: State)
    requires Inv(c, s) && Quiet(s, t)
    requires forall i, o | 0 <= i < |c.items| && Genuine(c, s, i, o) :: Genuine(c, t, i, o)
    ensures Partition(c, t)
    ensures forall w | 0 <= w < |t.workers| :: TreeState(c, t, t.workers[w])
    ensures forall x | 0 <= x < |t.free| :: t.trees[t.free[x]] == c.head
    ensures t.results == s.results ==> forall i | i in t.results :: i < |c.items| && Genuine(c, t, i, t.results[i])
  {
    forall w | 0 <= w < |t.workers|
      ensures TreeState(c, t, t.workers[w])
    {
      assert TreeState(c, s, s.workers[w]);
    }
  }

  /** So such a step need only keep the books of the main thread and the list. */
  lemma QuietKeeps(c: Config, s: State, step: Step)
    requires Inv(c, s) && Enabled(c, s, step) && (OfMain(step) || step.Exit?)
    requires var t := After(c, s, step);
             && Quiet(s, t) && MainState(c, t) && Accounted(t)
             && t.results == s.results && forall x | 0 <= x < |t.pending| :: t.pending[x] < |c.items|
    ensures Inv(c, After(c, s, step))
  {
    AllGenuineStay(c, s, step);
    QuietKeepsTrees(c, s, After(c, s, step));
  }

  lemma RunningListed(c: Config, s: State)
    requires Inv(c, s)
    ensures forall w | 0 <= w < |s.workers| && s.workers[w].Running? ::
              s.workers[w].proc < |s.procs| && s.workers[w].proc in s.live
  {
    forall w | 0 <= w < |s.workers| && s.workers[w].Running?
      ensures s.workers[w].proc < |s.procs| && s.workers[w].proc in s.live
    {
      assert TreeState(c, s, s.workers[w]);
    }
  }

  lemma StopKeeps(c: Config, s: State)
    requires Inv(c, s) && Enabled(c, s, StopAll)
    ensures Inv(c, After(c, s, StopAll))
  {
    RunningListed(c, s);
    QuietKeeps(c, s, StopAll);
  }

  lemma ExitKeeps(c: Config, s: State, p: nat, ok: bool)
    requires Inv(c, s) && Enabled(c, s, Exit(p, ok))
    ensures Inv(c, After(c, s, Exit(p, ok)))
  {
    RunningListed(c, s);
    QuietKeeps(c, s, Exit(p, ok));
  }

  /** The baseline: workers are still idle. */
  lemma BaselineStarts(c: Config, s: State, step: Step)
    requires Inv(c, s) && Enabled(c, s, step)
    requires step.SpawnBaseline? || step.RegisterBaseline? || step.EnterBaseline?
    ensures Inv(c, After(c, s, step))
  {
    RunningListed(c, s);
    QuietKeeps(c, s, step);
  }

  lemma BaselineEnds(c: Config, s: State, step: Step)
    requires Inv(c, s) && Enabled(c, s, step)
    requires step.BaselineTimeout? || step.KillBaseline? || step.ReapBaseline?
    ensures Inv(c, After(c, s, step))
  {
    RunningListed(c, s);
    QuietKeeps(c, s, step);
  }

  lemma InterruptKeeps(c: Config, s: State)
    requires Inv(c, s) && Enabled(c, s, Interrupt)
    ensures Inv(c, After(c, s, Interrupt))
  {
    RunningListed(c, s);
    InterruptBooks(c, s);
    QuietKeeps(c, s, Interrupt);
  }

  lemma InterruptBooks(c: Config, s: State)
    requires Inv(c, s) && Interruptible(s)
    requires forall w | 0 <= w < |s.workers| && s.workers[w].Running? ::
               s.workers[w].proc < |s.procs| && s.workers[w].proc in s.live
    ensures Quiet(s, Interrupted(s)) && MainState(c, Interrupted(s)) && Accounted(Interrupted(s))
  {
  }

  lemma PoolEnds(c: Config, s: State, step: Step)
    requires Inv(c, s) && Enabled(c, s, step)
    requires step.Collected? || step.MainRaises? || step.IgnoreSignals?
    ensures Inv(c, After(c, s, step))
  {
    RunningListed(c, s);
    QuietKeeps(c, s, step);
  }

  lemma CleanupKeeps(c: Config, s: State, step: Step)
    requires Inv(c, s) && Enabled(c, s, step)
    requires step.CancelQueued? || step.Cleanup?
    ensures Inv(c, After(c, s, step))
  {
    RunningListed(c, s);
    QuietKeeps(c, s, step);
  }

  /** Two running workers run two processes. */
  lemma DistinctProcs(c: Config, s: State, v: nat, w: nat)
    requires Inv(c, s) && v < |s.workers| && w < |s.workers| && v != w
    requires s.workers[v].Running? && s.workers[w].Running?
    ensures s.workers[v].proc != s.workers[w].proc
  {
    assert TreeState(c, s, s.workers[v]) && TreeState(c, s, s.workers[w]);
    assert HasTree(s.workers[v]) && HasTree(s.workers[w]);
  }

  /** A step of worker w that writes to no tree but its own and changes no process but its
      own leaves the other workers as they were. */
  lemma OthersKeep(c: Config, s: State, t: State, w: nat)
    requires Inv(c, s) && w < |s.workers| == |t.workers| && |t.trees| == |s.trees|
    requires forall v | 0 <= v < |s.workers| && v != w :: t.workers[v] == s.workers[v]
    requires forall u | 0 <= u < |s.trees| ::
               t.trees[u] == s.trees[u]
               || (HasTree(s.workers[w]) && s.workers[w].tree == u)
    requires |s.procs| <= |t.procs| && s.stopping == t.stopping
    requires forall p | 0 <= p < |s.procs| ::
               t.procs[p] == s.procs[p] || (s.workers[w].Running? && s.workers[w].proc == p)
    requires forall p | p in s.live :: p in t.live || (s.workers[w].Running? && s.workers[w].proc == p)
    requires forall i, o | 0 <= i < |c.items| && Genuine(c, s, i, o) :: Genuine(c, t, i, o)
    ensures forall v | 0 <= v < |t.workers| && v != w :: TreeState(c, t, t.workers[v])
  {
    forall v | 0 <= v < |t.workers| && v != w
      ensures TreeState(c, t, t.workers[v])
    {
      assert TreeState(c, s, s.workers[v]);
      if HasTree(s.workers[v]) && HasTree(s.workers[w]) {
        assert s.workers[v].tree != s.workers[w].tree;
      }
      if s.workers[v].Running? && s.workers[w].Running? {
        DistinctProcs(c, s, v, w);
      }
    }
  }

  /** take from the queue, and take a tree: FIFO, so the tree leaves the free list. */
  lemma TakeKeeps(c: Config, s: State, w: nat)
    requires Inv(c, s) && Enabled(c, s, Take(w))
    ensures Inv(c, After(c, s, Take(w)))
  {
    var t := After(c, s, Take(w));
    AllGenuineStay(c, s, Take(w));
    HoldersUpdate(s.workers, w, t.workers[w]);
    assert s.pending[0] < |c.items|;
    OthersKeep(c, s, t, w);
  }

  lemma GetTreeKeeps(c: Config, s: State, w: nat)
    requires Inv(c, s) && Enabled(c, s, GetTree(w))
    ensures Inv(c, After(c, s, GetTree(w)))
  {
    var t := After(c, s, GetTree(w));
    AllGenuineStay(c, s, GetTree(w));
    HoldersUpdate(s.workers, w, t.workers[w]);
    OthersKeep(c, s, t, w);
    assert TreeState(c, s, s.workers[w]);
    assert s.trees[s.free[0]] == c.head;
    assert s.free[0] !in t.free;
    assert TreeState(c, t, t.workers[w]);
  }

  /** A worker that keeps its tree leaves the partition as it was. */
  lemma PartitionKeeps(c: Config, s: State, t: State, w: nat)
    requires Partition(c, s) && w < |s.workers| && HasTree(s.workers[w])
    requires |t.workers| == |s.workers| && t.workers == s.workers[w := t.workers[w]]
    requires HasTree(t.workers[w]) && t.workers[w].tree == s.workers[w].tree
    requires t.free == s.free && t.lost == s.lost && |t.trees| == |s.trees|
    ensures Partition(c, t)
    ensures forall x | 0 <= x < |s.free| :: s.free[x] != s.workers[w].tree
  {
    HoldersUpdate(s.workers, w, t.workers[w]);
  }

  lemma WriteRevertedKeeps(c: Config, s: State, w: nat)
    requires Inv(c, s) && Enabled(c, s, WriteReverted(w))
    ensures Inv(c, After(c, s, WriteReverted(w)))
  {
    var t := After(c, s, WriteReverted(w));
    AllGenuineStay(c, s, WriteReverted(w));
    PartitionKeeps(c, s, t, w);
    OthersKeep(c, s, t, w);
    assert TreeState(c, s, s.workers[w]);
    assert TreeState(c, t, t.workers[w]);
  }

  lemma WriteFailsKeeps(c: Config, s: State, w: nat, partial: string)
    requires Inv(c, s) && Enabled(c, s, WriteFails(w, partial))
    ensures Inv(c, After(c, s, WriteFails(w, partial)))
  {
    var t := After(c, s, WriteFails(w, partial));
    AllGenuineStay(c, s, WriteFails(w, partial));
    PartitionKeeps(c, s, t, w);
    OthersKeep(c, s, t, w);
    assert TreeState(c, s, s.workers[w]);
    var i := s.workers[w].item;
    assert c.items[i].path in c.head;
    assert OffBy(t.trees[s.workers[w].tree], c, i);
    assert TreeState(c, t, t.workers[w]);
  }

  lemma RestoreKeeps(c: Config, s: State, w: nat)
    requires Inv(c, s) && Enabled(c, s, Restore(w))
    ensures Inv(c, After(c, s, Restore(w)))
  {
    var t := After(c, s, Restore(w));
    AllGenuineStay(c, s, Restore(w));
    PartitionKeeps(c, s, t, w);
    OthersKeep(c, s, t, w);
    assert TreeState(c, s, s.workers[w]);
    var item := c.items[s.workers[w].item];
    assert item.path in c.head && c.head[item.path] == item.head;
    assert t.trees[s.workers[w].tree] == c.head;
    assert TreeState(c, t, t.workers[w]);
  }

  lemma StartTestsKeeps(c: Config, s: State, w: nat)
    requires Inv(c, s) && Enabled(c, s, StartTests(w))
    ensures Inv(c, After(c, s, StartTests(w)))
  {
    if s.stopping {
      TestsRefused(c, s, w);
    } else {
      TestsStarted(c, s, w);
    }
  }

  /** Stopping: no process starts, and the run counts as failed. */
  lemma TestsRefused(c: Config, s: State, w: nat)
    requires Inv(c, s) && Enabled(c, s, StartTests(w)) && s.stopping
    ensures Inv(c, After(c, s, StartTests(w)))
  {
    var t := After(c, s, StartTests(w));
    AllGenuineStay(c, s, StartTests(w));
    PartitionKeeps(c, s, t, w);
    OthersKeep(c, s, t, w);
    OwnTestsStart(c, s, w);
    hide Genuine, OffBy, WithHunk;
    assert t.results == s.results && t.pending == s.pending;
  }

  lemma TestsStarted(c: Config, s: State, w: nat)
    requires Inv(c, s) && Enabled(c, s, StartTests(w)) && !s.stopping
    ensures Inv(c, After(c, s, StartTests(w)))
  {
    var t := After(c, s, StartTests(w));
    AllGenuineStay(c, s, StartTests(w));
    PartitionKeeps(c, s, t, w);
    OthersKeep(c, s, t, w);
    OwnTestsStart(c, s, w);
    hide Genuine, OffBy, WithHunk;
    assert t.results == s.results && t.pending == s.pending;
  }

  lemma OwnTestsStart(c: Config, s: State, w: nat)
    requires Inv(c, s) && Enabled(c, s, StartTests(w))
    ensures TreeState(c, After(c, s, StartTests(w)), After(c, s, StartTests(w)).workers[w])
  {
    assert TreeState(c, s, s.workers[w]);
    var i := s.workers[w].item;
    assert c.items[i].path in c.head;
    assert OffBy(WithHunk(c, i), c, i);
  }

  lemma StartFailsKeeps(c: Config, s: State, w: nat)
    requires Inv(c, s) && Enabled(c, s, StartFails(w))
    ensures Inv(c, After(c, s, StartFails(w)))
  {
    var t := After(c, s, StartFails(w));
    AllGenuineStay(c, s, StartFails(w));
    PartitionKeeps(c, s, t, w);
    OthersKeep(c, s, t, w);
    assert TreeState(c, s, s.workers[w]);
    var i := s.workers[w].item;
    assert c.items[i].path in c.head;
    assert OffBy(WithHunk(c, i), c, i);
    assert TreeState(c, t, t.workers[w]);
  }

  lemma TestsTimeoutKeeps(c: Config, s: State, w: nat)
    requires Inv(c, s) && Enabled(c, s, TestsTimeout(w))
    ensures Inv(c, After(c, s, TestsTimeout(w)))
  {
    var t := After(c, s, TestsTimeout(w));
    AllGenuineStay(c, s, TestsTimeout(w));
    PartitionKeeps(c, s, t, w);
    OthersKeep(c, s, t, w);
    assert TreeState(c, s, s.workers[w]);
    assert TreeState(c, t, t.workers[w]);
  }

  lemma ReapTestsKeeps(c: Config, s: State, w: nat)
    requires Inv(c, s) && Enabled(c, s, ReapTests(w))
    ensures Inv(c, After(c, s, ReapTests(w)))
  {
    var t := After(c, s, ReapTests(w));
    AllGenuineStay(c, s, ReapTests(w));
    PartitionKeeps(c, s, t, w);
    OthersKeep(c, s, t, w);
    assert TreeState(c, s, s.workers[w]);
    var i, p := s.workers[w].item, s.workers[w].proc;
    assert c.items[i].path in c.head;
    assert OffBy(WithHunk(c, i), c, i);
    assert Tested(c, t, i, p);
    assert TreeState(c, t, t.workers[w]);
  }

  /** A worker that lets go of its tree: it is free again, or lost. */
  lemma PartitionReleases(c: Config, s: State, t: State, w: nat)
    requires Partition(c, s) && w < |s.workers| && HasTree(s.workers[w])
    requires t.workers == s.workers[w := Idle] && |t.trees| == |s.trees|
    requires var tree := s.workers[w].tree;
             || (t.free == s.free + [tree] && t.lost == s.lost)
             || (t.free == s.free && t.lost == s.lost + {tree})
    ensures Partition(c, t)
  {
    HoldersUpdate(s.workers, w, Idle);
    var tree := s.workers[w].tree;
    assert tree !in s.free && tree !in s.lost;
    assert |s.lost + {tree}| == |s.lost| + 1;
    assert forall v | 0 <= v < c.jobs && v != w && HasTree(s.workers[v]) :: s.workers[v].tree != tree;
  }

  /** The tree leaves its worker and is lost. */
  lemma RestoreFailsKeeps(c: Config, s: State, w: nat, partial: string)
    requires Inv(c, s) && Enabled(c, s, RestoreFails(w, partial))
    ensures Inv(c, After(c, s, RestoreFails(w, partial)))
  {
    var t := After(c, s, RestoreFails(w, partial));
    AllGenuineStay(c, s, RestoreFails(w, partial));
    assert TreeState(c, s, s.workers[w]) && s.workers[w].tree !in s.free;
    PartitionReleases(c, s, t, w);
    OthersKeep(c, s, t, w);
    hide OffBy, WithHunk, Partition;
    assert TreeState(c, t, t.workers[w]);
  }

  lemma PutTreeKeeps(c: Config, s: State, w: nat)
    requires Inv(c, s) && Enabled(c, s, PutTree(w))
    ensures Inv(c, After(c, s, PutTree(w)))
  {
    var t := After(c, s, PutTree(w));
    AllGenuineStay(c, s, PutTree(w));
    assert TreeState(c, s, s.workers[w]);
    PartitionReleases(c, s, t, w);
    OthersKeep(c, s, t, w);
    hide OffBy, WithHunk, Partition;
    assert TreeState(c, t, t.workers[w]);
  }

  lemma StepKeeps(c: Config, s: State, step: Step)
    requires Inv(c, s) && Enabled(c, s, step)
    ensures Inv(c, After(c, s, step))
  {
    hide Enabled, After, Inv;
    match step {
      case Take(w) => TakeKeeps(c, s, w);
      case GetTree(w) => GetTreeKeeps(c, s, w);
      case WriteReverted(w) => WriteRevertedKeeps(c, s, w);
      case WriteFails(w, partial) => WriteFailsKeeps(c, s, w, partial);
      case StartTests(w) => StartTestsKeeps(c, s, w);
      case StartFails(w) => StartFailsKeeps(c, s, w);
      case TestsTimeout(w) => TestsTimeoutKeeps(c, s, w);
      case ReapTests(w) => ReapTestsKeeps(c, s, w);
      case Restore(w) => RestoreKeeps(c, s, w);
      case RestoreFails(w, partial) => RestoreFailsKeeps(c, s, w, partial);
      case PutTree(w) => PutTreeKeeps(c, s, w);
      case StopAll => StopKeeps(c, s);
      case Exit(p, ok) => ExitKeeps(c, s, p, ok);
      case Interrupt => InterruptKeeps(c, s);
      case Collected => PoolEnds(c, s, step);
      case MainRaises => PoolEnds(c, s, step);
      case IgnoreSignals => PoolEnds(c, s, step);
      case CancelQueued => CleanupKeeps(c, s, step);
      case Cleanup => CleanupKeeps(c, s, step);
      case BaselineTimeout => BaselineEnds(c, s, step);
      case KillBaseline => BaselineEnds(c, s, step);
      case ReapBaseline => BaselineEnds(c, s, step);
      case _ => BaselineStarts(c, s, step);
    }
  }

  // ---------------------------------------------------------------- which hunk is where

  /** A verdict no stop can have made. */
  ghost predicate Verified(c: Config, s: State, i: nat, o: Outcome)
    requires i < |c.items|
  {
    match o
    case Pass => exists p: nat :: Tested(c, s, i, p) && s.procs[p].status == Done(true)
    case Fail => exists p: nat :: Tested(c, s, i, p) && s.procs[p].status == Done(false)
    case Timeout => exists p: nat :: Tested(c, s, i, p)
  }

  predicate At(s: State, i: nat, w: nat) {
    w < |s.workers| && !s.workers[w].Idle? && s.workers[w].item == i
  }

  /** Each hunk is queued, with one worker, or finished: once. */
  ghost predicate Books(c: Config, s: State) {
    && (forall x, y | 0 <= x < y < |s.pending| :: s.pending[x] != s.pending[y])
    && (forall i, w: nat | At(s, i, w) :: i !in s.pending)
    && (forall i, v: nat, w: nat | At(s, i, v) && At(s, i, w) :: v == w)
    && (forall i, w: nat | At(s, i, w) :: i !in s.results && i !in s.raised)
    && (forall i | i in s.pending :: i !in s.results && i !in s.raised)
  }

  ghost predicate Somewhere(s: State, i: nat) {
    i in s.pending || i in s.results || i in s.raised || exists w: nat :: At(s, i, w)
  }

  ghost predicate NothingLost(c: Config, s: State) {
    s.main.Draining? || s.main.Cleaned? || forall i | 0 <= i < |c.items| :: Somewhere(s, i)
  }

  predicate AllIdle(s: State) {
    forall w | 0 <= w < |s.workers| :: s.workers[w].Idle?
  }

  /** Once every result was collected, the verdicts are final and verified. */
  ghost predicate Final(c: Config, s: State) {
    Complete(s.main) ==>
      && s.pending == [] && AllIdle(s)
      && forall i | 0 <= i < |c.items| :: i in s.results && Verified(c, s, i, s.results[i])
  }

  ghost predicate Good(c: Config, s: State) {
    Inv(c, s) && Books(c, s) && NothingLost(c, s) && Final(c, s)
  }

  /** Steps that move no hunk. */
  lemma BooksSame(c: Config, s: State, t: State)
    requires Books(c, s)
    requires t.pending == s.pending || t.pending == []
    requires t.results == s.results && t.raised == s.raised && |t.workers| == |s.workers|
    requires forall w | 0 <= w < |s.workers| ::
               t.workers[w].Idle? == s.workers[w].Idle?
               && (!s.workers[w].Idle? ==> t.workers[w].item == s.workers[w].item)
    ensures Books(c, t)
  {
    assert forall i, w: nat :: At(t, i, w) <==> At(s, i, w);
  }

  lemma BooksTake(c: Config, s: State, w: nat)
    requires Books(c, s) && Enabled(c, s, Take(w))
    ensures Books(c, After(c, s, Take(w)))
  {
    var t := After(c, s, Take(w));
    var taken := s.pending[0];
    assert taken in s.pending && taken !in t.pending;
    assert forall i :: i in t.pending ==> i in s.pending;
    forall i, v: nat | At(t, i, v)
      ensures (v == w && i == taken) || (v != w && At(s, i, v) && i != taken)
    {
      assert v != w ==> At(s, i, v) && i !in s.pending;
    }
  }

  /** Steps that end a hunk's check. */
  lemma BooksDone(c: Config, s: State, step: Step)
    requires Books(c, s) && Enabled(c, s, step) && (step.PutTree? || step.RestoreFails?)
    ensures Books(c, After(c, s, step))
  {
    var t, w := After(c, s, step), step.w;
    assert At(s, s.workers[w].item, w);
    forall i, v: nat | At(t, i, v)
      ensures At(s, i, v) && i != s.workers[w].item
    {
      assert v != w && At(s, i, v);
    }
  }

  lemma BooksKeep(c: Config, s: State, step: Step)
    requires Books(c, s) && Enabled(c, s, step)
    ensures Books(c, After(c, s, step))
  {
    if step.Take? {
      BooksTake(c, s, step.w);
    } else if step.PutTree? || step.RestoreFails? {
      BooksDone(c, s, step);
    } else {
      StepFrame(c, s, step);
      BooksSame(c, s, After(c, s, step));
    }
  }

  lemma NothingLostKeeps(c: Config, s: State, step: Step)
    requires Inv(c, s) && Books(c, s) && NothingLost(c, s) && Enabled(c, s, step)
    ensures NothingLost(c, After(c, s, step))
  {
    var t := After(c, s, step);
    if !t.main.Draining? && !t.main.Cleaned? {
      forall i | 0 <= i < |c.items|
        ensures Somewhere(t, i)
      {
        assert Somewhere(s, i);
        HunkStays(c, s, step, i);
      }
    }
  }

  lemma HunkStays(c: Config, s: State, step: Step, i: nat)
    requires Enabled(c, s, step) && Somewhere(s, i) && step != CancelQueued
    ensures Somewhere(After(c, s, step), i)
  {
    var t := After(c, s, step);
    StepFrame(c, s, step);
    if w: nat :| At(s, i, w) {
      assert At(t, i, w) || i in t.results || i in t.raised;
    }
    if i in s.pending && step.Take? {
      assert i in t.pending || (i == s.pending[0] && At(t, i, step.w));
    }
  }

  lemma VerifiedStays(c: Config, s: State, t: State, i: nat, o: Outcome)
    requires i < |c.items| && Verified(c, s, i, o)
    requires |s.procs| <= |t.procs|
    requires forall p | 0 <= p < |s.procs| ::
               t.procs[p].files == s.procs[p].files
                   && (s.procs[p].status.Done? ==> t.procs[p].status == s.procs[p].status)
    ensures Verified(c, t, i, o)
  {
    var p: nat :| Tested(c, s, i, p) && (o.Pass? ==> s.procs[p].status == Done(true))
                  && (o.Fail? ==> s.procs[p].status == Done(false));
    assert Tested(c, t, i, p);
  }

  lemma FirstElement(xs: seq<nat>)
    ensures xs == [] || (exists x | 0 <= x < |xs| :: xs[x] in xs)
  {
    assert xs != [] ==> xs[0] in xs;
  }

  lemma FinalKeeps(c: Config, s: State, step: Step)
    requires Good(c, s) && Enabled(c, s, step)
    ensures Final(c, After(c, s, step))
  {
    if step.Collected? {
      CollectedIsFinal(c, s);
    } else {
      FinalStays(c, s, step);
    }
  }

  lemma CollectedIsFinal(c: Config, s: State)
    requires Good(c, s) && Enabled(c, s, Collected)
    ensures Final(c, After(c, s, Collected))
  {
    forall w | 0 <= w < |s.workers|
      ensures s.workers[w].Idle?
    {
      assert TreeState(c, s, s.workers[w]);
      assert !s.workers[w].Idle? ==> At(s, s.workers[w].item, w);
    }
    FirstElement(s.pending);
    forall i | 0 <= i < |c.items|
      ensures Verified(c, After(c, s, Collected), i, s.results[i])
    {
      assert Genuine(c, s, i, s.results[i]);
      VerifiedStays(c, s, After(c, s, Collected), i, s.results[i]);
    }
  }

  lemma FinalStays(c: Config, s: State, step: Step)
    requires Good(c, s) && Enabled(c, s, step) && !step.Collected?
    ensures Final(c, After(c, s, step))
  {
    var t := After(c, s, step);
    StepFrame(c, s, step);
    if Complete(s.main) {
      NoWorkerMoves(c, s, step);
    }
    hide Enabled, After, Inv, Books, NothingLost;
    if Complete(t.main) {
      forall i | 0 <= i < |c.items|
        ensures i in t.results && Verified(c, t, i, t.results[i])
      {
        VerifiedStays(c, s, t, i, s.results[i]);
      }
    }
  }

  lemma NoWorkerMoves(c: Config, s: State, step: Step)
    requires Enabled(c, s, step) && s.pending == [] && AllIdle(s)
    ensures !OfWorker(step)
  {
  }

  lemma GoodStep(c: Config, s: State, step: Step)
    requires Good(c, s) && Enabled(c, s, step)
    ensures Good(c, After(c, s, step))
  {
    StepKeeps(c, s, step);
    BooksKeep(c, s, step);
    NothingLostKeeps(c, s, step);
    FinalKeeps(c, s, step);
  }

  // ---------------------------------------------------------------- every run

  lemma InitGood(c: Config, s: State)
    requires Inv(c, s) && s == Init(c)
    ensures Good(c, s)
  {
    forall i | 0 <= i < |c.items|
      ensures Somewhere(s, i)
    {
      assert s.pending[i] == i;
    }
    assert forall w: nat | w < |s.workers| :: s.workers[w].Idle?;
  }

  lemma {:induction false} RunIsGood(c: Config, states: seq<State>, steps: seq<Step>, k: nat)
    requires WellFormed(c) && Run(c, states, steps) && k < |states|
    ensures Good(c, states[k])
    decreases k
  {
    if k == 0 {
      InitInv(c);
      InitGood(c, Init(c));
    } else {
      RunIsGood(c, states, steps, k - 1);
      GoodStep(c, states[k - 1], steps[k - 1]);
    }
  }

  /** Pool safety in every state of every run: no tree is both free and held or held twice,
      a free tree equals HEAD, tests run on HEAD with exactly their hunk put back, and a
      worker at free.get() finds a tree. */
  lemma PoolSafety(c: Config, states: seq<State>, steps: seq<Step>, k: nat)
    requires WellFormed(c) && Run(c, states, steps) && k < |states|
    ensures Partition(c, states[k])
    ensures forall x | 0 <= x < |states[k].free| :: states[k].trees[states[k].free[x]] == c.head
    ensures forall w | 0 <= w < c.jobs && states[k].workers[w].Running? ::
              && states[k].workers[w].item < |c.items| && states[k].workers[w].proc < |states[k].procs|
              && states[k].trees[states[k].workers[w].tree] == WithHunk(c, states[k].workers[w].item)
              && states[k].procs[states[k].workers[w].proc].files == WithHunk(c, states[k].workers[w].item)
    ensures states[k].lost == {} ==> forall w | 0 <= w < c.jobs && states[k].workers[w].Waiting? :: states[k].free != []
  {
    RunIsGood(c, states, steps, k);
    var s := states[k];
    forall w | 0 <= w < c.jobs
      ensures s.workers[w].Waiting? && s.lost == {} ==> s.free != []
      ensures TreeState(c, s, s.workers[w])
    {
      if s.workers[w].Waiting? {
        HoldersBound(s.workers, w);
      }
    }
  }

  ghost function HeldSet(workers: seq<Phase>): set<nat> {
    set w | 0 <= w < |workers| && HasTree(workers[w]) :: workers[w].tree
  }

  ghost function SetOf(xs: seq<nat>): set<nat> {
    set x | x in xs
  }

  /** {0, .., n - 1} */
  ghost function Upto(n: nat): (r: set<nat>)
    ensures |r| == n
    ensures forall u: nat :: u in r <==> u < n
  {
    if n == 0 then {} else Upto(n - 1) + {n - 1}
  }

  lemma {:induction false} HeldCount(workers: seq<Phase>)
    requires forall v, w | 0 <= v < w < |workers| && HasTree(workers[v]) && HasTree(workers[w]) ::
               workers[v].tree != workers[w].tree
    ensures |HeldSet(workers)| == Holders(workers)
  {
    if workers != [] {
      var n := |workers| - 1;
      var front := workers[..n];
      HeldCount(front);
      assert forall w | 0 <= w < n :: workers[w] == front[w];
      if HasTree(workers[n]) {
        assert HeldSet(workers) == HeldSet(front) + {workers[n].tree};
        assert workers[n].tree !in HeldSet(front);
      } else {
        assert HeldSet(workers) == HeldSet(front);
      }
    }
  }

  lemma {:induction false} SetCount(xs: seq<nat>)
    requires forall x, y | 0 <= x < y < |xs| :: xs[x] != xs[y]
    ensures |SetOf(xs)| == |xs|
  {
    if xs != [] {
      var n := |xs| - 1;
      SetCount(xs[..n]);
      assert SetOf(xs) == SetOf(xs[..n]) + {xs[n]};
    }
  }

  lemma {:induction false} SameSize(a: set<nat>, b: set<nat>)
    requires a <= b && |a| == |b|
    ensures a == b
  {
    if a != {} {
      var x :| x in a;
      SameSize(a - {x}, b - {x});
    }
  }

  /** A tree that no worker holds is free, unless its restoring write raised. */
  lemma EveryTreeIsSomewhere(c: Config, s: State, t: nat)
    requires Partition(c, s) && t < c.jobs
    ensures t in s.free || t in s.lost || exists w | 0 <= w < c.jobs :: HasTree(s.workers[w]) && s.workers[w].tree == t
  {
    HeldCount(s.workers);
    SetCount(s.free);
    var held, free := HeldSet(s.workers), SetOf(s.free);
    var all := held + free + s.lost;
    assert held !! free && held + free !! s.lost;
    assert |held + free| == |held| + |free| && |all| == |held + free| + |s.lost|;
    SameSize(all, Upto(c.jobs));
    assert t in all;
  }

  // ---------------------------------------------------------------- stopping

  /** Once stop() has held the lock no test process is ever started. */
  lemma {:induction false} NoStartAfterStop(c: Config, states: seq<State>, steps: seq<Step>, i: nat, j: nat)
    requires WellFormed(c) && Run(c, states, steps) && i <= j < |states|
    requires states[i].stopping
    ensures states[j].stopping && |states[j].procs| == |states[i].procs|
    decreases j
  {
    hide Run;
    RunLength(c, states, steps);
    if i < j {
      NoStartAfterStop(c, states, steps, i, j - 1);
      StoppedStep(c, states, steps, j - 1);
    }
  }

  lemma StoppedStep(c: Config, states: seq<State>, steps: seq<Step>, k: nat)
    requires Run(c, states, steps) && k < |steps| && states[k].stopping
    ensures states[k + 1].stopping && |states[k + 1].procs| == |states[k].procs|
  {
    hide Run, Enabled, After;
    RunLength(c, states, steps);
    RunStep(c, states, steps, k);
    StepFrame(c, states[k], steps[k]);
  }

  /** The main thread was interrupted with process p exposed: before p was registered, or in
      the handler of p's timeout before the kill. */
  ghost predicate Caught(states: seq<State>, steps: seq<Step>, p: nat, k: nat) {
    exists j | 0 <= j < k && j < |steps| && j < |states| :: CaughtAt(states[j], steps[j], p)
  }

  predicate CaughtAt(s: State, step: Step, p: nat) {
    step == Interrupt && Exposed(s.main) && s.main.proc == p
  }

  lemma RunLength(c: Config, states: seq<State>, steps: seq<Step>)
    requires Run(c, states, steps)
    ensures |states| == |steps| + 1
  {
  }

  /** One step of a run. */
  lemma RunStep(c: Config, states: seq<State>, steps: seq<Step>, k: nat)
    requires Run(c, states, steps) && k < |steps|
    ensures Enabled(c, states[k], steps[k]) && states[k + 1] == After(c, states[k], steps[k])
  {
  }

  lemma {:induction false} OrphanMeansCaught(c: Config, states: seq<State>, steps: seq<Step>, k: nat)
    requires WellFormed(c) && Run(c, states, steps) && k < |states|
    requires states[k].orphan.Some?
    ensures Caught(states, steps, states[k].orphan.value, k)
    decreases k
  {
    hide Run, Enabled, After;
    RunLength(c, states, steps);
    if k == 0 {
      RunStart(c, states, steps);
    } else {
      RunStep(c, states, steps, k - 1);
      RunIsGood(c, states, steps, k - 1);
      StepFrame(c, states[k - 1], steps[k - 1]);
      if states[k - 1].orphan.Some? {
        OrphanMeansCaught(c, states, steps, k - 1);
      } else {
        assert CaughtAt(states[k - 1], steps[k - 1], states[k].orphan.value);
      }
    }
  }

  lemma RunStart(c: Config, states: seq<State>, steps: seq<Step>)
    requires Run(c, states, steps)
    ensures states[0].orphan.None? && !states[0].main.Escaped?
  {
  }

  /** From stop on, every process ever started has ended or been killed, but one the main
      thread was interrupted over while it was exposed. */
  lemma StopEndsEveryProcess(c: Config, states: seq<State>, steps: seq<Step>, k: nat, p: nat)
    requires WellFormed(c) && Run(c, states, steps) && k < |states|
    requires states[k].stopping && p < |states[k].procs|
    requires !Caught(states, steps, p, k)
    ensures !states[k].procs[p].status.Live?
  {
    RunIsGood(c, states, steps, k);
    if states[k].procs[p].status.Live? {
      assert states[k].orphan == Some(p);
      OrphanMeansCaught(c, states, steps, k);
    }
  }

  predicate LostAlive(s: State, p: nat) {
    s.orphan == Some(p) && p < |s.procs| && s.procs[p].status.Live?
  }

  /** No step but its own exit ends an exposed process once the interrupt came. */
  lemma {:induction false} OrphanRunsOn(c: Config, states: seq<State>, steps: seq<Step>, j: nat, k: nat, p: nat)
    requires WellFormed(c) && Run(c, states, steps) && j < k < |states|
    requires CaughtAt(states[j], steps[j], p) && p < |states[j].procs| && states[j].procs[p].status.Live?
    requires forall i | j <= i < k :: !Exits(steps[i], p)
    ensures LostAlive(states[k], p)
    decreases k
  {
    hide Run;
    RunLength(c, states, steps);
    if k == j + 1 {
      RunStep(c, states, steps, j);
      OrphanLost(c, states[j], p);
    } else {
      OrphanRunsOn(c, states, steps, j, k - 1, p);
      OrphanStep(c, states, steps, k - 1, p);
    }
  }

  lemma OrphanStep(c: Config, states: seq<State>, steps: seq<Step>, k: nat, p: nat)
    requires WellFormed(c) && Run(c, states, steps) && k < |steps|
    requires LostAlive(states[k], p) && !Exits(steps[k], p)
    ensures LostAlive(states[k + 1], p)
  {
    RunStep(c, states, steps, k);
    RunIsGood(c, states, steps, k);
    OrphanLivesOn(c, states[k], steps[k], p);
  }

  lemma OrphanLost(c: Config, s: State, p: nat)
    requires Enabled(c, s, Interrupt) && CaughtAt(s, Interrupt, p) && p < |s.procs| && s.procs[p].status.Live?
    ensures LostAlive(After(c, s, Interrupt), p)
  {
  }

  lemma OrphanLivesOn(c: Config, s: State, step: Step, p: nat)
    requires Inv(c, s) && Enabled(c, s, step) && LostAlive(s, p) && !Exits(step, p)
    ensures LostAlive(After(c, s, step), p)
  {
    StepFrame(c, s, step);
    assert step.TestsTimeout? ==> TreeState(c, s, s.workers[step.w]);
  }

  /** After stop a process lives exactly if the interrupt caught it exposed and alive, and it
      has not ended by itself since. */
  lemma LivesAfterStopExact(c: Config, states: seq<State>, steps: seq<Step>, k: nat, p: nat)
    requires WellFormed(c) && Run(c, states, steps) && k < |states|
    requires states[k].stopping && p < |states[k].procs|
    ensures states[k].procs[p].status.Live?
            <==> exists j | 0 <= j < k :: CaughtAlive(states[j], steps[j], p)
                                          && forall i | j <= i < k :: !Exits(steps[i], p)
  {
    hide Run, Enabled, After, Good;
    RunLength(c, states, steps);
    if j :| 0 <= j < k && CaughtAlive(states[j], steps[j], p) && forall i | j <= i < k :: !Exits(steps[i], p) {
      OrphanRunsOn(c, states, steps, j, k, p);
    }
    if states[k].procs[p].status.Live? {
      if !Caught(states, steps, p, k) {
        StopEndsEveryProcess(c, states, steps, k, p);
      }
      var j :| 0 <= j < k && j < |steps| && j < |states| && CaughtAt(states[j], steps[j], p);
      RunIsGood(c, states, steps, j);
      ExposedIsKnown(c, states[j]);
      LivedSince(c, states, steps, j, k, p);
    }
  }

  lemma ExposedIsKnown(c: Config, s: State)
    requires Good(c, s) && Exposed(s.main)
    ensures s.main.proc < |s.procs|
  {
  }

  predicate CaughtAlive(s: State, step: Step, p: nat) {
    CaughtAt(s, step, p) && p < |s.procs| && s.procs[p].status.Live?
  }

  /** A process that lives was alive before, and did not exit. */
  lemma {:induction false} LivedSince(c: Config, states: seq<State>, steps: seq<Step>, j: nat, k: nat, p: nat)
    requires Run(c, states, steps) && j <= k < |states|
    requires p < |states[j].procs| && p < |states[k].procs| && states[k].procs[p].status.Live?
    ensures states[j].procs[p].status.Live?
    ensures forall i | j <= i < k :: !Exits(steps[i], p)
    decreases k - j
  {
    if j < k {
      RunStep(c, states, steps, j);
      hide Run, Enabled, After;
      StepFrame(c, states[j], steps[j]);
      LivedSince(c, states, steps, j + 1, k, p);
    }
  }

  /** Both windows are real: interrupted in either, the run cleans up while the process lives. */
  lemma OrphanOutlivesCleanup(c: Config, expired: bool) returns (states: seq<State>, steps: seq<Step>)
    requires WellFormed(c)
    ensures Run(c, states, steps)
    ensures var last := states[|states| - 1];
            last.main.Cleaned? && |last.procs| == 1 && last.procs[0].status.Live?
    ensures expired ==> exists k | 0 <= k < |steps| :: steps[k] == Interrupt && states[k].main.Expired?
    ensures !expired ==> exists k | 0 <= k < |steps| :: steps[k] == Interrupt && states[k].main.Spawned?
  {
    hide Run;
    if expired {
      states, steps := JudgingRun(c);
      states, steps := Extend(c, states, steps, BaselineTimeout);
    } else {
      states, steps := SpawnedRun(c);
    }
    ghost var at, before := |steps|, states;
    states, steps := InterruptedRun(c, states, steps);
    assert steps[at] == Interrupt && states[..|before|][at] == states[at] == before[at];
  }

  /** The baseline's process, and nothing else yet. */
  predicate OneProcess(s: State) {
    && !s.ignored && !s.pooled && AllIdle(s) && |s.procs| == 1 && s.procs[0].status.Live?
    && s.live == (if s.main.Spawned? then {} else {0})
  }

  /** No worker has begun. */
  predicate Untouched(c: Config, s: State) {
    && s.workers == Init(c).workers && s.trees == Init(c).trees && s.free == Init(c).free
    && s.pending == Init(c).pending && s.raised == {} && s.lost == {}
  }

  lemma SpawnedRun(c: Config) returns (states: seq<State>, steps: seq<Step>)
    requires WellFormed(c)
    ensures Run(c, states, steps) && |states| == |steps| + 1
    ensures states[|steps|].main == Spawned(0) && OneProcess(states[|steps|])
    ensures Untouched(c, states[|steps|])
  {
    states, steps := Extend(c, [Init(c)], [], SpawnBaseline);
  }

  lemma JudgingRun(c: Config) returns (states: seq<State>, steps: seq<Step>)
    requires WellFormed(c)
    ensures Run(c, states, steps) && |states| == |steps| + 1
    ensures states[|steps|].main == Judging(0, false) && OneProcess(states[|steps|])
    ensures Untouched(c, states[|steps|])
  {
    hide Run;
    states, steps := SpawnedRun(c);
    states, steps := Extend(c, states, steps, RegisterBaseline);
    states, steps := Extend(c, states, steps, EnterBaseline);
  }

  lemma InterruptedRun(c: Config, states: seq<State>, steps: seq<Step>)
    returns (more: seq<State>, taken: seq<Step>)
    requires Run(c, states, steps) && |states| == |steps| + 1
    requires var s := states[|steps|];
             Exposed(s.main) && s.main.proc == 0 && OneProcess(s)
    ensures Run(c, more, taken) && |more| == |taken| + 1 && |taken| > |steps| && taken[|steps|] == Interrupt
    ensures more[..|states|] == states
    ensures var last := more[|more| - 1]; last.main.Cleaned? && |last.procs| == 1 && last.procs[0].status.Live?
  {
    hide Run;
    more, taken := Extend(c, states, steps, Interrupt);
    more, taken := FinishedRun(c, more, taken);
  }

  /** run's finally, to its end. */
  lemma FinishedRun(c: Config, states: seq<State>, steps: seq<Step>)
    returns (more: seq<State>, taken: seq<Step>)
    requires Run(c, states, steps) && |states| == |steps| + 1
    requires var s := states[|steps|]; s.main.Unwinding? && AllIdle(s) && s.live == {}
    ensures Run(c, more, taken) && |taken| >= |steps| && taken[..|steps|] == steps
    ensures |more| == |taken| + 1 && more[..|states|] == states
    ensures more[|taken|].main.Cleaned? && more[|taken|].procs == states[|steps|].procs
  {
    hide Run;
    more, taken := Extend(c, states, steps, IgnoreSignals);
    more, taken := Extend(c, more, taken, StopAll);
    assert more[|taken|].procs == states[|steps|].procs;
    more, taken := Extend(c, more, taken, CancelQueued);
    more, taken := Extend(c, more, taken, Cleanup);
  }

  /** One step more. */
  lemma Extend(c: Config, states: seq<State>, steps: seq<Step>, step: Step)
    returns (more: seq<State>, taken: seq<Step>)
    requires Run(c, states, steps) && |states| == |steps| + 1 && Enabled(c, states[|steps|], step)
    ensures Run(c, more, taken) && |more| == |taken| + 1
    ensures taken == steps + [step] && more == states + [After(c, states[|steps|], step)]
  {
    hide Enabled, After;
    more, taken := states + [After(c, states[|steps|], step)], steps + [step];
  }

  /** When the worktrees are removed no worker is active and every tree that was not lost is
      free, at HEAD. */
  lemma CleanupIsQuiet(c: Config, states: seq<State>, steps: seq<Step>, k: nat)
    requires WellFormed(c) && Run(c, states, steps) && k < |states|
    requires states[k].main.Cleaned?
    ensures AllIdle(states[k])
    ensures |states[k].trees| == c.jobs
    ensures forall t | 0 <= t < c.jobs && t !in states[k].lost :: t in states[k].free && states[k].trees[t] == c.head
  {
    RunIsGood(c, states, steps, k);
    var s := states[k];
    forall t | 0 <= t < c.jobs && t !in s.lost
      ensures t in s.free && s.trees[t] == c.head
    {
      EveryTreeIsSomewhere(c, s, t);
      assert t in s.free;
    }
  }

  /** A run that reports has a verdict for every hunk, each from a process that ran on HEAD
      with that hunk, and no other, put back: unnoticed only if it passed, noticed only if
      it failed. */
  lemma ReportedVerdictsAreReal(c: Config, states: seq<State>, steps: seq<Step>, k: nat, i: nat)
    requires WellFormed(c) && Run(c, states, steps) && k < |states| && i < |c.items|
    requires Complete(states[k].main)
    ensures i in states[k].results && Verified(c, states[k], i, states[k].results[i])
  {
    RunIsGood(c, states, steps, k);
  }
}
