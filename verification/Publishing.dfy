/**
 The publish protocol of pipeline/atx_deploy.py: each apply run reads the agent's version,
 bumps it, and retries past conflicts. Any number of runs on one agent interleave; the
 registry refuses exactly a version that exists, and answers a read with the newest one.
 */
module Publishing {
  import opened Common
  import opened DeployVersions

  const ATTEMPTS := 8

  // ---------------------------------------------------------------- the state machine

  datatype ApplyRun =
    | Starting
    /** readAt: how many versions existed when the read succeeded; None if it failed. */
    | Trying(version: string, conflicts: nat, readAt: Option<nat>)
    | Published(version: string)
    | GaveUp(readAt: Option<nat>)
    | Crashed

  /** The versions the registry holds, oldest first, the run that published each, and the runs. */
  datatype State = State(published: seq<string>, authors: seq<nat>, runs: seq<ApplyRun>)

  datatype Step = Read(r: nat) | ReadFails(r: nat) | Attempt(r: nat) | AttemptFails(r: nat)

  function Init(runs: nat): State {
    State([], [], seq(runs, _ => Starting))
  }

  predicate Enabled(s: State, step: Step) {
    && step.r < |s.runs|
    && match step
       case Read(r) => s.runs[r].Starting?
       case ReadFails(r) => s.runs[r].Starting?
       case Attempt(r) => s.runs[r].Trying?
       case AttemptFails(r) => s.runs[r].Trying?
  }

  /** get_agent_version: the newest version, or an error when there is none. */
  function Newest(published: seq<string>): Option<string> {
    if published == [] then None else Some(published[|published| - 1])
  }

  function After(s: State, step: Step): State
    requires Enabled(s, step)
  {
    var r := step.r;
    match step
    case Read(_) =>
      s.(runs := s.runs[r := Trying(NextVersion(Newest(s.published)), 0, Some(|s.published|))])
    case ReadFails(_) => s.(runs := s.runs[r := Trying(NextVersion(None), 0, None)])
    case Attempt(_) =>
      var run := s.runs[r];
      if run.version !in s.published then
        State(s.published + [run.version], s.authors + [r], s.runs[r := Published(run.version)])
      else if run.conflicts + 1 == ATTEMPTS then s.(runs := s.runs[r := GaveUp(run.readAt)])
      else s.(runs := s.runs[r := Trying(BumpPatch(run.version), run.conflicts + 1, run.readAt)])
    case AttemptFails(_) => s.(runs := s.runs[r := Crashed])
  }

  ghost predicate Execution(n: nat, states: seq<State>, steps: seq<Step>) {
    && |states| == |steps| + 1
    && states[0] == Init(n)
    && forall k | 0 <= k < |steps| :: Enabled(states[k], steps[k]) && states[k + 1] == After(states[k], steps[k])
  }

  // ---------------------------------------------------------------- what every step keeps

  /** 1.0.0, 1.0.1, .., with no gap. */
  ghost predicate Gapless(published: seq<string>) {
    forall k | 0 <= k < |published| :: published[k] == Patch(k)
  }

  /** Where a run's candidate stands: its first was the version after those it read. */
  ghost predicate Candidate(published: seq<string>, run: ApplyRun) {
    match run
    case Trying(version, conflicts, readAt) =>
      var first := if readAt.Some? then readAt.value else 0;
      version == Patch(first + conflicts) && first + conflicts <= |published| && conflicts < ATTEMPTS
    case GaveUp(readAt) => (if readAt.Some? then readAt.value else 0) + ATTEMPTS <= |published|
    case Published(version) => version in published
    case _ => true
  }

  /** Each version was published by a run that then stopped. */
  ghost predicate Authored(s: State) {
    && |s.authors| == |s.published|
    && (forall k | 0 <= k < |s.authors| :: s.authors[k] < |s.runs| && s.runs[s.authors[k]] == Published(s.published[k]))
    && (forall j, k | 0 <= j < k < |s.authors| :: s.authors[j] != s.authors[k])
  }

  ghost predicate Inv(s: State) {
    && Gapless(s.published) && Authored(s)
    && forall r | 0 <= r < |s.runs| :: Candidate(s.published, s.runs[r])
  }

  lemma FirstCandidate(published: seq<string>)
    requires Gapless(published)
    ensures NextVersion(Newest(published)) == Patch(|published|)
    ensures NextVersion(None) == Patch(0)
  {
    BumpOfPatch(0);
    if published != [] {
      BumpOfPatch(|published| - 1);
    }
  }

  lemma ExistsExactlyBelow(published: seq<string>, k: nat)
    requires Gapless(published)
    ensures Patch(k) in published <==> k < |published|
  {
    if k < |published| {
      assert published[k] == Patch(k);
    } else if Patch(k) in published {
      var j :| 0 <= j < |published| && published[j] == Patch(k);
      PatchInjective(j, k);
    }
  }

  lemma AuthorsKeep(s: State, step: Step)
    requires Authored(s) && Enabled(s, step)
    ensures Authored(After(s, step))
  {
    var t := After(s, step);
    assert forall k | 0 <= k < |s.authors| :: s.authors[k] != step.r;
  }

  lemma StepKeeps(s: State, step: Step)
    requires Inv(s) && Enabled(s, step)
    ensures Inv(After(s, step))
    ensures s.published <= After(s, step).published
  {
    AuthorsKeep(s, step);
    CandidatesKeep(s, step);
  }

  lemma CandidatesKeep(s: State, step: Step)
    requires Gapless(s.published) && Enabled(s, step)
    requires forall r | 0 <= r < |s.runs| :: Candidate(s.published, s.runs[r])
    ensures Gapless(After(s, step).published) && s.published <= After(s, step).published
    ensures forall r | 0 <= r < |After(s, step).runs| :: Candidate(After(s, step).published, After(s, step).runs[r])
  {
    hide NextVersion, BumpPatch, Patch;
    var t := After(s, step);
    FirstCandidate(s.published);
    var run := s.runs[step.r];
    assert Candidate(s.published, run);
    if step.Attempt? {
      var k := (if run.readAt.Some? then run.readAt.value else 0) + run.conflicts;
      ExistsExactlyBelow(s.published, k);
      BumpOfPatch(k);
    }
    forall r | 0 <= r < |t.runs|
      ensures Candidate(t.published, t.runs[r])
    {
      assert r != step.r ==> Candidate(s.published, s.runs[r]);
    }
  }

  lemma {:induction false} ExecutionKeeps(n: nat, states: seq<State>, steps: seq<Step>, k: nat)
    requires Execution(n, states, steps) && k < |states|
    ensures Inv(states[k])
    decreases k
  {
    if k > 0 {
      ExecutionKeeps(n, states, steps, k - 1);
      StepKeeps(states[k - 1], steps[k - 1]);
    }
  }

  /** In every interleaving the versions published are exactly 1.0.0 .. 1.0.k. */
  lemma PublishedWithoutGaps(n: nat, states: seq<State>, steps: seq<Step>, k: nat)
    requires Execution(n, states, steps) && k < |states|
    ensures states[k].published == seq(|states[k].published|, i requires 0 <= i => Patch(i))
  {
    ExecutionKeeps(n, states, steps, k);
  }

  /** A successful publish takes the version right after every one published before it, and
      no version is published twice. */
  lemma EachPublishIsNewest(n: nat, states: seq<State>, steps: seq<Step>, k: nat)
    requires Execution(n, states, steps) && k < |steps|
    requires states[k + 1].published != states[k].published
    ensures states[k + 1].published == states[k].published + [Patch(|states[k].published|)]
    ensures Patch(|states[k].published|) !in states[k].published
  {
    ExecutionKeeps(n, states, steps, k);
    var s := states[k];
    var run := s.runs[steps[k].r];
    assert Candidate(s.published, run);
    ExistsExactlyBelow(s.published, (if run.readAt.Some? then run.readAt.value else 0) + run.conflicts);
    ExistsExactlyBelow(s.published, |s.published|);
  }

  /** A run that gives up after a successful read was overtaken since that read by at least
      eight versions, each from a different run and none from itself. */
  lemma GivingUpTakesEightOthers(n: nat, states: seq<State>, steps: seq<Step>, k: nat, r: nat)
    requires Execution(n, states, steps) && k < |states| && r < |states[k].runs|
    requires states[k].runs[r].GaveUp? && states[k].runs[r].readAt.Some?
    ensures var s := states[k];
            var since := s.runs[r].readAt.value;
            && since + ATTEMPTS <= |s.published| == |s.authors|
            && r !in s.authors[since..]
            && forall i, j | since <= i < j < |s.authors| :: s.authors[i] != s.authors[j]
  {
    ExecutionKeeps(n, states, steps, k);
    assert Candidate(states[k].published, states[k].runs[r]);
  }

  // ---------------------------------------------------------------- one run's loop

  /** The registry of one agent, as a client sees it. */
  class Registry {
    var published: seq<string>

    constructor ()
      ensures published == []
    {
      published := [];
    }

    /** Other runs may publish at any time; what they publish has no gap. */
    method OthersPublish()
      requires Gapless(published)
      modifies this
      ensures Gapless(published) && old(published) <= published
    {
    }

    /** publish_agent_version: refused exactly when the version exists. */
    method PublishAgentVersion(version: string) returns (conflict: bool)
      modifies this
      ensures conflict == (version in old(published))
      ensures published == if conflict then old(published) else old(published) + [version]
    {
      conflict := version in published;
      if !conflict {
        published := published + [version];
      }
    }
  }

  /** _next_version: the read may fail, whatever is published. */
  method FirstVersion(reg: Registry, readFails: bool) returns (version: string, ghost first: nat)
    requires Gapless(reg.published)
    ensures version == Patch(first) && first == if readFails then 0 else |reg.published|
  {
    FirstCandidate(reg.published);
    version := NextVersion(if readFails then None else Newest(reg.published));
    first := if readFails then 0 else |reg.published|;
  }

  method Bump(version: string, ghost k: nat) returns (next: string)
    requires version == Patch(k)
    ensures next == BumpPatch(version) && next == Patch(k + 1)
  {
    BumpOfPatch(k);
    next := BumpPatch(version);
  }

  /** One publish call: it takes the candidate exactly when the candidate is the next
      version, and a refusal means some run published it already. */
  method TryPublish(reg: Registry, version: string, ghost k: nat) returns (conflict: bool)
    requires Gapless(reg.published) && version == Patch(k) && k <= |reg.published|
    modifies reg
    ensures Gapless(reg.published)
    ensures conflict ==> reg.published == old(reg.published) && k < |reg.published|
    ensures !conflict ==> k == |old(reg.published)| && reg.published == old(reg.published) + [version]
  {
    ExistsExactlyBelow(reg.published, k);
    conflict := reg.PublishAgentVersion(version);
  }

  /** How a run's loop ends. */
  datatype Ending = Success | OutOfAttempts | Raised

  /** The loop of _register_and_publish, with other runs publishing before every call. It
      publishes the version right after all others, or gives up because every one of its
      eight candidates was taken; an error that is no conflict ends it. faultAt: the attempt
      that meets such an error, if it comes to that. */
  method Publish(reg: Registry, readFails: bool, faultAt: nat)
    returns (ending: Ending, version: string, ghost first: nat, ghost attempts: nat)
    requires Gapless(reg.published)
    modifies reg
    ensures Gapless(reg.published) && old(reg.published) <= reg.published
    ensures first >= (if readFails then 0 else |old(reg.published)|)
    ensures attempts <= ATTEMPTS && attempts <= faultAt
    ensures ending.Success? ==>
              && |old(reg.published)| < |reg.published| && first < |reg.published| == first + attempts
              && version == reg.published[|reg.published| - 1] == Patch(|reg.published| - 1)
    ensures ending.OutOfAttempts? ==> attempts == ATTEMPTS && |reg.published| >= first + ATTEMPTS
    ensures ending.Raised? ==> attempts == faultAt < ATTEMPTS && |reg.published| >= first + faultAt
  {
    reg.OthersPublish();
    version, first := FirstVersion(reg, readFails);
    attempts := 0;
    for i := 0 to ATTEMPTS
      invariant Gapless(reg.published) && old(reg.published) <= reg.published
      invariant attempts == i <= faultAt
      invariant version == Patch(first + i) && first + i <= |reg.published|
    {
      reg.OthersPublish();
      if i == faultAt {
        ending := Raised;
        return;
      }
      attempts := i + 1;
      var conflict := TryPublish(reg, version, first + i);
      if !conflict {
        ending := Success;
        return;
      }
      version := Bump(version, first + i);
    }
    ending := OutOfAttempts;
  }

  /** The loop over a registry nobody else publishes to: whether it finds a free version. */
  function Alone(published: seq<string>, version: string, attempts: nat): Option<string>
    decreases attempts
  {
    if attempts == 0 then None
    else if version !in published then Some(version)
    else Alone(published, BumpPatch(version), attempts - 1)
  }

  lemma {:induction false} AloneFinds(published: seq<string>, k: nat, attempts: nat)
    requires Gapless(published) && k <= |published|
    ensures Alone(published, Patch(k), attempts)
         == if |published| < k + attempts then Some(Patch(|published|)) else None
    decreases attempts
  {
    hide BumpPatch, Patch;
    if attempts > 0 {
      ExistsExactlyBelow(published, k);
      if k < |published| {
        BumpOfPatch(k);
        AloneFinds(published, k + 1, attempts - 1);
      }
    }
  }

  /** The retry loop's promise, exactly: with nobody else publishing, a run publishes the
      next version if and only if its read succeeded or fewer than eight versions exist. A
      failed read starts again at 1.0.0 and cannot step past the ninth. */
  lemma AloneExact(published: seq<string>, readFails: bool)
    requires Gapless(published)
    ensures var start := NextVersion(if readFails then None else Newest(published));
            Alone(published, start, ATTEMPTS) == Some(Patch(|published|)) <==> !readFails || |published| < ATTEMPTS
  {
    FirstCandidate(published);
    AloneFinds(published, if readFails then 0 else |published|, ATTEMPTS);
  }
}
