/**
 The Runner of ci/hunk_revert.py as a protocol: a pool of worktrees of HEAD, as many
 worker threads as trees, the pytest processes they start, and the main thread that
 judges a baseline, submits the hunks, stops everything and cleans up. A section the
 source runs under its lock is one step; every other step is one write or one call.
 Tests are taken not to write to their tree.
 */
module WorktreePool {
  import opened Common

  type Files = map<string, string>

  /** A checkable hunk: its file, HEAD's text and the text with the hunk put back. */
  datatype Item = Item(path: string, head: string, reverted: string)

  /** HEAD's files, the hunks to check and the number of worktrees. */
  datatype Config = Config(head: Files, items: seq<Item>, jobs: nat)

  ghost predicate WellFormed(c: Config) {
    && c.jobs >= 1
    && forall i | 0 <= i < |c.items| :: c.items[i].path in c.head && c.head[c.items[i].path] == c.items[i].head
  }

  datatype Outcome = Pass | Fail | Timeout

  datatype Status = Live | Done(ok: bool) | Killed

  /** A pytest process: the tree it runs in, the files it was started on, how it ended. */
  datatype Proc = Proc(tree: nat, files: Files, status: Status)

  /** Where a worker is in check(item). */
  datatype Phase =
    | Idle
    | Waiting(item: nat)                                    // at free.get()
    | Holding(item: nat, tree: nat)                         // before the reverted text is written
    | Written(item: nat, tree: nat)                         // before pytest takes the lock
    | Running(item: nat, tree: nat, proc: nat, late: bool)  // in communicate(); late: it timed out
    | Returned(item: nat, tree: nat, outcome: Option<Outcome>)  // in finally; None: an exception
    | Restored(item: nat, tree: nat, outcome: Option<Outcome>)  // before free.put()

  /** Where the main thread is in run(). */
  datatype Main =
    | Ready
    | Spawned(proc: nat)      // baseline: Popen returned, not yet in live
    | Registered(proc: nat)   // in live, the try not yet entered
    | Judging(proc: nat, late: bool)  // in communicate(); late: it timed out and was killed
    | Expired(proc: nat)      // the timeout's handler, before its kill
    | Pooled                  // the hunks are submitted
    | Unwinding(complete: bool)   // in finally, signals not yet ignored; complete: all results collected
    | Escaped                     // an interrupt there left the finally: no stop, no cleanup
    | Shielded(complete: bool)    // signals are ignored
    | Stopped(complete: bool)     // stop() returned
    | Draining(complete: bool)    // the queued hunks are cancelled
    | Cleaned(complete: bool)

  datatype State = State(
    main: Main,
    workers: seq<Phase>,
    trees: seq<Files>,
    free: seq<nat>,
    pending: seq<nat>,
    procs: seq<Proc>,
    live: set<nat>,
    stopping: bool,
    results: map<nat, Outcome>,
    raised: set<nat>,
    lost: set<nat>,           // trees whose restoring write raised: never put back
    orphan: Option<nat>,      // the main thread's process, lost by an interrupt
    pooled: bool,             // the executor exists and has the hunks
    ignored: bool)            // signals are ignored: an interrupt comes once

  function Init(c: Config): State {
    State(Ready, seq(c.jobs, _ => Idle), seq(c.jobs, _ => c.head), seq(c.jobs, i => i),
          seq(|c.items|, i => i), [], {}, false, map[], {}, {}, None, false, false)
  }

  datatype Step =
    // main
    | SpawnBaseline | RegisterBaseline | EnterBaseline | BaselineTimeout | KillBaseline | ReapBaseline
    | Interrupt | MainRaises | Collected | IgnoreSignals | StopAll | CancelQueued | Cleanup
    // worker w
    | Take(w: nat) | GetTree(w: nat) | WriteReverted(w: nat) | WriteFails(w: nat, partial: string)
    | StartTests(w: nat) | StartFails(w: nat) | TestsTimeout(w: nat) | ReapTests(w: nat)
    | Restore(w: nat) | RestoreFails(w: nat, partial: string) | PutTree(w: nat)
    // a process ends by itself
    | Exit(p: nat, ok: bool)

  /** Workers take hunks until the queue is cancelled; after an escape they run them all. */
  predicate Taking(s: State) {
    s.pooled && !s.main.Draining? && !s.main.Cleaned?
  }

  /** The main thread's process is not registered, or no longer safe from an interrupt. */
  predicate Exposed(main: Main) {
    main.Spawned? || main.Expired?
  }

  predicate Interruptible(s: State) {
    !s.ignored && (s.main.Ready? || s.main.Registered? || s.main.Pooled? || s.main.Unwinding? || s.main.Spawned?
                   || ((s.main.Judging? || s.main.Expired?) && s.main.proc < |s.procs|))
  }

  /** A step of the main thread; any other but an exit is a worker's. */
  predicate OfMain(step: Step) {
    step.SpawnBaseline? || step.RegisterBaseline? || step.EnterBaseline? || step.BaselineTimeout?
    || step.KillBaseline? || step.ReapBaseline? || step.Interrupt? || step.MainRaises? || step.Collected?
    || step.IgnoreSignals? || step.StopAll? || step.CancelQueued? || step.Cleanup?
  }

  predicate OfWorker(step: Step) {
    !OfMain(step) && !step.Exit?
  }

  predicate Enabled(c: Config, s: State, step: Step) {
    if step.Exit? then step.p < |s.procs| && s.procs[step.p].status.Live?
    else if OfMain(step) then MainEnabled(c, s, step)
    else WorkerEnabled(c, s, step)
  }

  predicate MainEnabled(c: Config, s: State, step: Step)
    requires OfMain(step)
  {
    match step
    case SpawnBaseline => s.main == Ready && !s.stopping && |s.trees| > 0
    case RegisterBaseline => s.main.Spawned?
    case EnterBaseline => s.main.Registered?
    case BaselineTimeout => s.main.Judging? && s.main.proc < |s.procs| && !s.main.late
    case ReapBaseline => s.main.Judging? && s.main.proc < |s.procs| && !s.procs[s.main.proc].status.Live?
    case KillBaseline => s.main.Expired? && s.main.proc < |s.procs|
    case Interrupt => Interruptible(s)
    case MainRaises => s.main.Pooled? && s.raised != {}
    case Collected => s.main.Pooled? && forall i | 0 <= i < |c.items| :: i in s.results
    case IgnoreSignals => s.main.Unwinding?
    case StopAll => s.main.Shielded?
    case CancelQueued => s.main.Stopped?
    case Cleanup => s.main.Draining? && forall w | 0 <= w < |s.workers| :: s.workers[w].Idle?
  }

  predicate WorkerEnabled(c: Config, s: State, step: Step)
    requires OfWorker(step)
  {
    match step
    case Take(w) => w < |s.workers| && s.workers[w].Idle? && Taking(s) && s.pending != []
    case GetTree(w) => w < |s.workers| && s.workers[w].Waiting? && s.free != []
    case WriteReverted(w) => AtTree(c, s, w) && s.workers[w].Holding?
    case WriteFails(w, _) => AtTree(c, s, w) && s.workers[w].Holding?
    case StartTests(w) => AtTree(c, s, w) && s.workers[w].Written?
    case StartFails(w) => AtTree(c, s, w) && s.workers[w].Written? && !s.stopping
    case TestsTimeout(w) => AtTree(c, s, w) && s.workers[w].Running? && s.workers[w].proc < |s.procs|
         && !s.workers[w].late
    case ReapTests(w) => AtTree(c, s, w) && s.workers[w].Running? && s.workers[w].proc < |s.procs|
                         && !s.procs[s.workers[w].proc].status.Live?
    case Restore(w) => AtTree(c, s, w) && s.workers[w].Returned?
    case RestoreFails(w, _) => AtTree(c, s, w) && s.workers[w].Returned?
    case PutTree(w) => AtTree(c, s, w) && s.workers[w].Restored?
  }

  predicate HasTree(phase: Phase) {
    !phase.Idle? && !phase.Waiting?
  }

  predicate AtTree(c: Config, s: State, w: nat) {
    w < |s.workers| && HasTree(s.workers[w]) && s.workers[w].tree < |s.trees| && s.workers[w].item < |c.items|
  }

  /** kill_tree: a process that has ended stays as it ended. */
  function Kill(p: Proc): Proc {
    if p.status.Live? then p.(status := Killed) else p
  }

  function KillRegistered(procs: seq<Proc>, live: set<nat>): seq<Proc> {
    seq(|procs|, p requires 0 <= p < |procs| => if p in live then Kill(procs[p]) else procs[p])
  }

  function SetPhase(s: State, w: nat, phase: Phase): State
    requires w < |s.workers|
  {
    s.(workers := s.workers[w := phase])
  }

  /** returncode 0 is a pass; a killed process has another. */
  function OutcomeOf(p: Proc, late: bool): Outcome {
    if late then Timeout else if p.status == Done(true) then Pass else Fail
  }

  /** KeyboardInterrupt: its handler first ignores all signals. Waiting for the baseline, it
      kills it; in the timeout's own handler nothing catches it, and the finally there takes
      the process off the list; in run's finally it skips the rest of it. */
  function Interrupted(s: State): State
    requires Interruptible(s)
  {
    match s.main
    case Unwinding(_) => s.(ignored := true, main := Escaped)
    case Spawned(p) => s.(ignored := true, main := Unwinding(false), orphan := Some(p))
    case Expired(p) => s.(ignored := true, main := Unwinding(false), orphan := Some(p), live := s.live - {p})
    case Judging(p, _) =>
      s.(ignored := true, main := Unwinding(false), procs := s.procs[p := Kill(s.procs[p])], live := s.live - {p})
    case _ => s.(ignored := true, main := Unwinding(false))
  }

  function After(c: Config, s: State, step: Step): State
    requires Enabled(c, s, step)
  {
    if step.Exit? then s.(procs := s.procs[step.p := s.procs[step.p].(status := Done(step.ok))])
    else if OfMain(step) then AfterMain(c, s, step)
    else AfterWorker(c, s, step)
  }

  function AfterMain(c: Config, s: State, step: Step): State
    requires OfMain(step) && MainEnabled(c, s, step)
  {
    match step
    case SpawnBaseline => s.(procs := s.procs + [Proc(0, s.trees[0], Live)], main := Spawned(|s.procs|))
    case RegisterBaseline => s.(live := s.live + {s.main.proc}, main := Registered(s.main.proc))
    case EnterBaseline => s.(main := Judging(s.main.proc, false))
    case BaselineTimeout => s.(main := Expired(s.main.proc))
    case KillBaseline =>
      s.(procs := s.procs[s.main.proc := Kill(s.procs[s.main.proc])], main := Judging(s.main.proc, true))
    case ReapBaseline =>
      var passed := OutcomeOf(s.procs[s.main.proc], s.main.late) == Pass;
      s.(live := s.live - {s.main.proc}, pooled := passed, main := if passed then Pooled else Unwinding(false))
    case Interrupt => Interrupted(s)
    case MainRaises => s.(main := Unwinding(false))
    case Collected => s.(main := Unwinding(true))
    case IgnoreSignals => s.(main := Shielded(s.main.complete), ignored := true)
    case StopAll =>
      s.(stopping := true, main := Stopped(s.main.complete),
         procs := KillRegistered(s.procs, s.live))
    case CancelQueued => s.(pending := [], main := Draining(s.main.complete))
    case Cleanup => s.(main := Cleaned(s.main.complete))
  }

  function AfterWorker(c: Config, s: State, step: Step): State
    requires OfWorker(step) && WorkerEnabled(c, s, step)
  {
    match step
    case Take(w) => SetPhase(s, w, Waiting(s.pending[0])).(pending := s.pending[1..])
    case GetTree(w) => SetPhase(s, w, Holding(s.workers[w].item, s.free[0])).(free := s.free[1..])
    case WriteReverted(w) =>
      var item := c.items[s.workers[w].item];
      var t := s.workers[w].tree;
      SetPhase(s, w, Written(s.workers[w].item, t)).(trees := s.trees[t := s.trees[t][item.path := item.reverted]])
    case WriteFails(w, partial) =>
      var item := c.items[s.workers[w].item];
      var t := s.workers[w].tree;
      SetPhase(s, w, Returned(s.workers[w].item, t, None)).(trees := s.trees[t := s.trees[t][item.path := partial]])
    case StartTests(w) =>
      var t := s.workers[w].tree;
      if s.stopping then SetPhase(s, w, Returned(s.workers[w].item, t, Some(Fail)))
      else
        SetPhase(s, w, Running(s.workers[w].item, t, |s.procs|, false))
          .(procs := s.procs + [Proc(t, s.trees[t], Live)], live := s.live + {|s.procs|})
    case StartFails(w) => SetPhase(s, w, Returned(s.workers[w].item, s.workers[w].tree, None))
    case TestsTimeout(w) =>
      var p := s.workers[w].proc;
      SetPhase(s, w, s.workers[w].(late := true)).(procs := s.procs[p := Kill(s.procs[p])])
    case ReapTests(w) =>
      var p := s.workers[w].proc;
      SetPhase(s, w, Returned(s.workers[w].item, s.workers[w].tree, Some(OutcomeOf(s.procs[p], s.workers[w].late))))
        .(live := s.live - {p})
    case Restore(w) =>
      var item := c.items[s.workers[w].item];
      var t := s.workers[w].tree;
      SetPhase(s, w, Restored(s.workers[w].item, t, s.workers[w].outcome))
        .(trees := s.trees[t := s.trees[t][item.path := item.head]])
    case RestoreFails(w, partial) =>
      var i, t := s.workers[w].item, s.workers[w].tree;
      SetPhase(s, w, Idle).(trees := s.trees[t := s.trees[t][c.items[i].path := partial]],
                            lost := s.lost + {t}, raised := s.raised + {i})
    case PutTree(w) =>
      var i, o := s.workers[w].item, s.workers[w].outcome;
      SetPhase(s, w, Idle).(free := s.free + [s.workers[w].tree],
                            results := if o.Some? then s.results[i := o.value] else s.results,
                            raised := if o.Some? then s.raised else s.raised + {i})
  }

  ghost predicate Run(c: Config, states: seq<State>, steps: seq<Step>) {
    && |states| == |steps| + 1
    && states[0] == Init(c)
    && forall k | 0 <= k < |steps| :: Enabled(c, states[k], steps[k]) && states[k + 1] == After(c, states[k], steps[k])
  }
}
