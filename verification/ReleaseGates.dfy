/**
 The version gates of scripts/contract_schema_snapshot.py, and what passing them one
 release or one merge at a time says about a whole history.
 */
module ReleaseGates {
  import opened Common
  import opened JsonValues
  import opened StructuralNodes
  import opened SchemaDiff
  import opened DiffCompleteness
  import opened ContractBumps

  datatype Entry = Entry(version: Version, digest: string, fields: Fields)

  type Snapshot = map<string, Entry>

  /** The released snapshot: the tag it records, if any, and its contracts. */
  datatype Released = Released(tag: Option<string>, contracts: Snapshot)

  datatype Reason =
    | Removed | NotRecorded | WentBack | NeedsMajor | NeedsMinor
    | NewContract | NotRegenerated | PendingTooSmall | VersionNotMoved | NotCovered

  datatype Problem = Problem(key: string, reason: Reason)

  const CONTRACT_VERSION := "contract_version"

  // ---------------------------------------------------------------- against the last release

  /** The changes a release is judged by: contract_version's own move is the bump. */
  function JudgedChanges(re: Regex, before: Entry, after: Entry): set<Change> {
    set c | c in FieldsChanges(re, before.fields, after.fields) && c.path != CONTRACT_VERSION
  }

  function ReleasedProblem(re: Regex, tagged: bool, before: Option<Entry>, after: Option<Entry>): Option<Reason> {
    if after.None? then Some(Removed)
    else if before.None? then Some(NotRecorded)
    else
      var was, now := before.value.version, after.value.version;
      if Below(now, was) then Some(WentBack)
      else
        var bump := OverallBump(JudgedChanges(re, before.value, after.value));
        if bump.MajorBump? && now.major <= was.major then Some(NeedsMajor)
        else if bump.MinorBump? && tagged && now == was then Some(NeedsMinor)
        else None
  }

  /** A change away from contract_version, and one that breaks a caller. */
  ghost predicate ChangedElsewhere(re: Regex, was: Fields, now: Fields) {
    exists c | c in FieldsChanges(re, was, now) :: c.path != CONTRACT_VERSION
  }

  ghost predicate BrokenElsewhere(re: Regex, was: Fields, now: Fields) {
    exists c | c in FieldsChanges(re, was, now) :: c.path != CONTRACT_VERSION && c.bump == MajorBump
  }

  /** What the release gate holds against a contract, reason by reason. */
  ghost predicate ReleaseRefuses(re: Regex, tagged: bool, before: Option<Entry>, after: Option<Entry>, reason: Reason) {
    match reason
    case Removed => after.None?
    case NotRecorded => before.None? && after.Some?
    case WentBack => before.Some? && after.Some? && Below(after.value.version, before.value.version)
    case NeedsMajor =>
      && before.Some? && after.Some? && !Below(after.value.version, before.value.version)
      && BrokenElsewhere(re, before.value.fields, after.value.fields)
      && after.value.version.major == before.value.version.major
    case NeedsMinor =>
      && before.Some? && after.Some? && tagged && after.value.version == before.value.version
      && ChangedElsewhere(re, before.value.fields, after.value.fields)
      && !BrokenElsewhere(re, before.value.fields, after.value.fields)
    case _ => false
  }

  lemma ReleasedReasons(re: Regex, tagged: bool, before: Option<Entry>, after: Option<Entry>, reason: Reason)
    ensures ReleasedProblem(re, tagged, before, after) == Some(reason)
            <==> ReleaseRefuses(re, tagged, before, after, reason)
  {
    if before.Some? && after.Some? {
      JudgedExact(re, before.value, after.value);
    }
  }

  lemma JudgedExact(re: Regex, before: Entry, after: Entry)
    ensures OverallBump(JudgedChanges(re, before, after))
         == if BrokenElsewhere(re, before.fields, after.fields) then MajorBump
            else if ChangedElsewhere(re, before.fields, after.fields) then MinorBump else NoBump
  {
    hide FieldsChanges;
    var all, judged := FieldsChanges(re, before.fields, after.fields), JudgedChanges(re, before, after);
    assert forall c :: c in judged <==> c in all && c.path != CONTRACT_VERSION;
  }

  /** A contract the gate has nothing against: on both sides, its version not gone back, a
      breaking change behind a higher MAJOR and, once there is a tag, any change behind a new
      version. */
  ghost predicate ReleaseAllows(re: Regex, tagged: bool, was: Entry, now: Entry) {
    && !Below(now.version, was.version)
    && (BrokenElsewhere(re, was.fields, now.fields) ==> now.version.major > was.version.major)
    && (tagged && ChangedElsewhere(re, was.fields, now.fields) ==> now.version != was.version)
  }

  lemma ReleasedExact(re: Regex, tagged: bool, before: Option<Entry>, after: Option<Entry>)
    requires before.Some? || after.Some?
    ensures ReleasedProblem(re, tagged, before, after) == None
            <==> before.Some? && after.Some? && ReleaseAllows(re, tagged, before.value, after.value)
  {
    if before.Some? && after.Some? {
      JudgedExact(re, before.value, after.value);
    }
  }

  /** A version moved by bump_version passes exactly when its kind covers the change: any kind
      for additions, MAJOR for a break. */
  lemma BumpedPassesRelease(re: Regex, tagged: bool, was: Entry, now: Entry, kind: Bump)
    requires BumpVersion(was.version, kind) == Some(now.version)
    ensures ReleasedProblem(re, tagged, Some(was), Some(now)) == None
            <==> (BrokenElsewhere(re, was.fields, now.fields) ==> kind == MajorBump)
  {
    ReleasedExact(re, tagged, Some(was), Some(now));
  }

  /** evaluate_against_released */
  method EvaluateAgainstReleased(re: Regex, released: Released, actual: Snapshot) returns (problems: seq<Problem>)
    ensures forall p :: p in problems <==>
              && p.key in released.contracts.Keys + actual.Keys
              && ReleasedProblem(re, released.tag.Some?, Get(released.contracts, p.key), Get(actual, p.key))
                 == Some(p.reason)
    ensures forall p :: p in problems <==>
              && p.key in released.contracts.Keys + actual.Keys
              && ReleaseRefuses(re, released.tag.Some?, Get(released.contracts, p.key), Get(actual, p.key), p.reason)
    ensures forall key | key in released.contracts.Keys + actual.Keys ::
              (forall p | p in problems :: p.key != key)
              <==> && key in released.contracts && key in actual
                   && ReleaseAllows(re, released.tag.Some?, released.contracts[key], actual[key])
  {
    problems := [];
    var keys := released.contracts.Keys + actual.Keys;
    var todo := keys;
    while todo != {}
      invariant todo <= keys
      invariant forall p :: p in problems <==>
                  && p.key in keys - todo
                  && ReleasedProblem(re, released.tag.Some?, Get(released.contracts, p.key), Get(actual, p.key))
                     == Some(p.reason)
      decreases todo
    {
      var key :| key in todo;
      todo := todo - {key};
      if key !in actual {
        problems := problems + [Problem(key, Removed)];
        continue;
      }
      if key !in released.contracts {
        problems := problems + [Problem(key, NotRecorded)];
        continue;
      }
      var before, after := released.contracts[key], actual[key];
      if Below(after.version, before.version) {
        problems := problems + [Problem(key, WentBack)];
        continue;
      }
      var all := DiffFields(re, before.fields, after.fields, "");
      var changes := set c | c in all && c.path != CONTRACT_VERSION;
      assert forall c :: c in all <==> c in Elements(all);
      assert changes == JudgedChanges(re, before, after);
      var bump := OverallBump(changes);
      if bump == MajorBump && after.version.major <= before.version.major {
        problems := problems + [Problem(key, NeedsMajor)];
      } else if bump == MinorBump && released.tag.Some? && after.version == before.version {
        problems := problems + [Problem(key, NeedsMinor)];
      }
    }
    ReleasedAnswer(re, released, actual, problems);
  }

  lemma ReleasedAnswer(re: Regex, released: Released, actual: Snapshot, problems: seq<Problem>)
    requires forall p :: p in problems <==>
               && p.key in released.contracts.Keys + actual.Keys
               && ReleasedProblem(re, released.tag.Some?, Get(released.contracts, p.key), Get(actual, p.key))
                  == Some(p.reason)
    ensures forall p :: p in problems <==>
              && p.key in released.contracts.Keys + actual.Keys
              && ReleaseRefuses(re, released.tag.Some?, Get(released.contracts, p.key), Get(actual, p.key), p.reason)
    ensures forall key | key in released.contracts.Keys + actual.Keys ::
              (forall p | p in problems :: p.key != key)
              <==> && key in released.contracts && key in actual
                   && ReleaseAllows(re, released.tag.Some?, released.contracts[key], actual[key])
  {
    hide ReleasedProblem, ReleaseRefuses, ReleaseAllows;
    var tagged := released.tag.Some?;
    forall p: Problem
      ensures ReleasedProblem(re, tagged, Get(released.contracts, p.key), Get(actual, p.key)) == Some(p.reason)
              <==> ReleaseRefuses(re, tagged, Get(released.contracts, p.key), Get(actual, p.key), p.reason)
    {
      ReleasedReasons(re, tagged, Get(released.contracts, p.key), Get(actual, p.key), p.reason);
    }
    forall key | key in released.contracts.Keys + actual.Keys
      ensures (forall p | p in problems :: p.key != key)
              <==> && key in released.contracts && key in actual
                   && ReleaseAllows(re, tagged, released.contracts[key], actual[key])
    {
      ReleasedExact(re, tagged, Get(released.contracts, key), Get(actual, key));
      var verdict := ReleasedProblem(re, tagged, Get(released.contracts, key), Get(actual, key));
      if verdict.Some? {
        assert Problem(key, verdict.value) in problems;
      }
    }
  }

  ghost predicate PassesReleased(re: Regex, released: Released, actual: Snapshot) {
    forall key | key in released.contracts.Keys + actual.Keys ::
      ReleasedProblem(re, released.tag.Some?, Get(released.contracts, key), Get(actual, key)) == None
  }

  // ---------------------------------------------------------------- against main

  function BaseProblem(re: Regex, before: Entry, after: Entry, declared: Option<Bump>): Option<Reason> {
    var changes := FieldsChanges(re, before.fields, after.fields);
    var bump := OverallBump(changes);
    if changes == {} then None
    else if before.version == after.version then
      if declared.Some? && KindCovers(declared.value, bump) then None else Some(NotCovered)
    else if bump.MajorBump? && after.version.major <= before.version.major then Some(NeedsMajor)
    else None
  }

  /** The kind is strong enough for the changes: any for additions, MAJOR for a break. */
  predicate Suffices(kind: Bump, changes: set<Change>) {
    kind != NoBump && (HasMajor(changes) ==> kind == MajorBump)
  }

  /** What main's gate holds against a changed contract, reason by reason. */
  ghost predicate BaseRefuses(re: Regex, was: Entry, now: Entry, declared: Option<Bump>, reason: Reason) {
    var changes := FieldsChanges(re, was.fields, now.fields);
    match reason
    case NotCovered =>
      changes != {} && was.version == now.version && !(declared.Some? && Suffices(declared.value, changes))
    case NeedsMajor => HasMajor(changes) && was.version != now.version && now.version.major <= was.version.major
    case _ => false
  }

  lemma BaseReasons(re: Regex, was: Entry, now: Entry, declared: Option<Bump>, reason: Reason)
    ensures BaseProblem(re, was, now, declared) == Some(reason) <==> BaseRefuses(re, was, now, declared, reason)
  {
    hide FieldsChanges;
  }

  /** It passes exactly an unchanged contract, a pending kind strong enough at main's version,
      or another version whose MAJOR rises with a break. */
  lemma BaseExact(re: Regex, was: Entry, now: Entry, declared: Option<Bump>)
    ensures var changes := FieldsChanges(re, was.fields, now.fields);
            BaseProblem(re, was, now, declared) == None
            <==> || changes == {}
                 || (was.version == now.version && declared.Some? && Suffices(declared.value, changes))
                 || (was.version != now.version && (HasMajor(changes) ==> now.version.major > was.version.major))
  {
    hide FieldsChanges;
  }

  lemma BumpedPassesBase(re: Regex, was: Entry, now: Entry, declared: Option<Bump>, kind: Bump)
    requires BumpVersion(was.version, kind) == Some(now.version)
    ensures BaseProblem(re, was, now, declared) == None
            <==> (HasMajor(FieldsChanges(re, was.fields, now.fields)) ==> kind == MajorBump)
  {
    BaseExact(re, was, now, declared);
    hide FieldsChanges;
  }

  /** evaluate_against_base */
  method EvaluateAgainstBase(re: Regex, base: Snapshot, actual: Snapshot, pending: map<string, Bump>)
    returns (problems: seq<Problem>)
    ensures forall p :: p in problems <==>
              && p.key in base && p.key in actual
              && BaseProblem(re, base[p.key], actual[p.key], Get(pending, p.key)) == Some(p.reason)
    ensures forall p :: p in problems <==>
              && p.key in base && p.key in actual
              && BaseRefuses(re, base[p.key], actual[p.key], Get(pending, p.key), p.reason)
  {
    problems := [];
    var keys := base.Keys * actual.Keys;
    var todo := keys;
    while todo != {}
      invariant todo <= keys
      invariant forall p :: p in problems <==>
                  && p.key in keys - todo
                  && BaseProblem(re, base[p.key], actual[p.key], Get(pending, p.key)) == Some(p.reason)
      decreases todo
    {
      var key :| key in todo;
      todo := todo - {key};
      var before, after := base[key], actual[key];
      var changes := DiffFields(re, before.fields, after.fields, "");
      assert changes == [] <==> Elements(changes) == {} by {
        if changes != [] { assert changes[0] in Elements(changes); }
      }
      if changes == [] {
        continue;
      }
      var bump := OverallBump(Elements(changes));
      if before.version == after.version {
        if key in pending && KindCovers(pending[key], bump) {
          continue;
        }
        problems := problems + [Problem(key, NotCovered)];
      } else if bump == MajorBump && after.version.major <= before.version.major {
        problems := problems + [Problem(key, NeedsMajor)];
      }
    }
    forall p: Problem | p.key in base && p.key in actual
      ensures BaseProblem(re, base[p.key], actual[p.key], Get(pending, p.key)) == Some(p.reason)
              <==> BaseRefuses(re, base[p.key], actual[p.key], Get(pending, p.key), p.reason)
    {
      BaseReasons(re, base[p.key], actual[p.key], Get(pending, p.key), p.reason);
    }
  }

  // ---------------------------------------------------------------- against the committed snapshot

  function SnapshotProblem(re: Regex, committed: Option<Entry>, actual: Option<Entry>,
                           declared: Option<Bump>): Option<Reason> {
    if committed.None? then Some(NewContract)
    else if actual.None? then Some(Removed)
    else
      var after := actual.value;
      var before := if declared.Some? then committed.value.(version := after.version) else committed.value;
      if before == after then None
      else
        var changes := FieldsChanges(re, before.fields, after.fields);
        var bump := if changes == {} then MinorBump else OverallBump(changes);
        if before.digest == after.digest && before.version != after.version then Some(NotRegenerated)
        else if declared.Some? then
          if KindCovers(declared.value, bump) then None else Some(PendingTooSmall)
        else if before.version == after.version then Some(VersionNotMoved)
        else if bump.MajorBump? && after.version.major <= before.version.major then Some(NeedsMajor)
        else Some(NotRegenerated)
  }

  /** What the snapshot check holds against a contract, reason by reason. */
  ghost predicate SnapshotRefuses(re: Regex, committed: Option<Entry>, actual: Option<Entry>,
                                  declared: Option<Bump>, reason: Reason) {
    if committed.None? then reason == NewContract
    else if actual.None? then reason == Removed
    else
      var was, now := committed.value, actual.value;
      var changes := FieldsChanges(re, was.fields, now.fields);
      if declared.Some? then reason == PendingTooSmall && !SnapshotAgrees(re, was, now, declared)
      else
        match reason
        case VersionNotMoved => was != now && was.version == now.version
        case NeedsMajor =>
          && was.digest != now.digest && was.version != now.version
          && HasMajor(changes) && now.version.major <= was.version.major
        case NotRegenerated =>
          && was.version != now.version
          && (was.digest == now.digest || !HasMajor(changes) || now.version.major > was.version.major)
        case _ => false
  }

  /** With no pending bump the entry was regenerated; with one, nothing but the version moved
      or the kind is strong enough. */
  ghost predicate SnapshotAgrees(re: Regex, was: Entry, now: Entry, declared: Option<Bump>) {
    match declared
    case None => was == now
    case Some(kind) =>
      || (was.digest == now.digest && was.fields == now.fields)
      || Suffices(kind, FieldsChanges(re, was.fields, now.fields))
  }

  lemma SnapshotReasons(re: Regex, committed: Option<Entry>, actual: Option<Entry>, declared: Option<Bump>,
                        reason: Reason)
    requires committed.Some? || actual.Some?
    ensures SnapshotProblem(re, committed, actual, declared) == Some(reason)
            <==> SnapshotRefuses(re, committed, actual, declared, reason)
  {
    hide FieldsChanges;
  }

  /** evaluate_snapshot */
  method EvaluateSnapshot(re: Regex, committed: Snapshot, actual: Snapshot, pending: map<string, Bump>)
    returns (problems: seq<Problem>)
    ensures forall p :: p in problems <==>
              && p.key in committed.Keys + actual.Keys
              && SnapshotProblem(re, Get(committed, p.key), Get(actual, p.key), Get(pending, p.key)) == Some(p.reason)
    ensures forall p :: p in problems <==>
              && p.key in committed.Keys + actual.Keys
              && SnapshotRefuses(re, Get(committed, p.key), Get(actual, p.key), Get(pending, p.key), p.reason)
    ensures problems == [] <==>
            && committed.Keys == actual.Keys
            && forall key | key in committed && key in actual ::
                 SnapshotAgrees(re, committed[key], actual[key], Get(pending, key))
  {
    problems := [];
    var keys := committed.Keys + actual.Keys;
    var todo := keys;
    while todo != {}
      invariant todo <= keys
      invariant forall p :: p in problems <==>
                  && p.key in keys - todo
                  && SnapshotProblem(re, Get(committed, p.key), Get(actual, p.key), Get(pending, p.key))
                      == Some(p.reason)
      decreases todo
    {
      var key :| key in todo;
      todo := todo - {key};
      if key !in committed {
        problems := problems + [Problem(key, NewContract)];
        continue;
      }
      if key !in actual {
        problems := problems + [Problem(key, Removed)];
        continue;
      }
      var before, after := committed[key], actual[key];
      var declared := Get(pending, key);
      if declared.Some? {
        before := before.(version := after.version);
      }
      if before == after {
        continue;
      }
      var changes := DiffFields(re, before.fields, after.fields, "");
      assert changes == [] <==> Elements(changes) == {} by {
        if changes != [] { assert changes[0] in Elements(changes); }
      }
      var bump := if changes == [] then MinorBump else OverallBump(Elements(changes));
      if before.digest == after.digest && before.version != after.version {
        problems := problems + [Problem(key, NotRegenerated)];
      } else if declared.Some? {
        if KindCovers(declared.value, bump) {
          continue;
        }
        problems := problems + [Problem(key, PendingTooSmall)];
      } else if before.version == after.version {
        problems := problems + [Problem(key, VersionNotMoved)];
      } else if bump == MajorBump && after.version.major <= before.version.major {
        problems := problems + [Problem(key, NeedsMajor)];
      } else {
        problems := problems + [Problem(key, NotRegenerated)];
      }
    }
    SnapshotAnswer(re, committed, actual, pending, problems);
  }

  lemma SnapshotAnswer(re: Regex, committed: Snapshot, actual: Snapshot, pending: map<string, Bump>,
                       problems: seq<Problem>)
    requires forall p :: p in problems <==>
               && p.key in committed.Keys + actual.Keys
               && SnapshotProblem(re, Get(committed, p.key), Get(actual, p.key), Get(pending, p.key)) == Some(p.reason)
    ensures forall p :: p in problems <==>
              && p.key in committed.Keys + actual.Keys
              && SnapshotRefuses(re, Get(committed, p.key), Get(actual, p.key), Get(pending, p.key), p.reason)
    ensures problems == [] <==>
            && committed.Keys == actual.Keys
            && forall key | key in committed && key in actual ::
                 SnapshotAgrees(re, committed[key], actual[key], Get(pending, key))
  {
    hide SnapshotProblem, SnapshotRefuses, SnapshotAgrees;
    forall p: Problem | p.key in committed.Keys + actual.Keys
      ensures SnapshotProblem(re, Get(committed, p.key), Get(actual, p.key), Get(pending, p.key)) == Some(p.reason)
              <==> SnapshotRefuses(re, Get(committed, p.key), Get(actual, p.key), Get(pending, p.key), p.reason)
    {
      SnapshotReasons(re, Get(committed, p.key), Get(actual, p.key), Get(pending, p.key), p.reason);
    }
    forall key | key in committed.Keys + actual.Keys
      ensures SnapshotProblem(re, Get(committed, key), Get(actual, key), Get(pending, key)) == None
              <==> && key in committed && key in actual
                   && SnapshotAgrees(re, committed[key], actual[key], Get(pending, key))
    {
      SnapshotPasses(re, Get(committed, key), Get(actual, key), Get(pending, key));
    }
    if problems != [] {
      assert problems[0] in problems;
    } else {
      forall key | key in committed.Keys + actual.Keys
        ensures SnapshotProblem(re, Get(committed, key), Get(actual, key), Get(pending, key)) == None
      {
        var verdict := SnapshotProblem(re, Get(committed, key), Get(actual, key), Get(pending, key));
        assert forall reason :: verdict == Some(reason) <==> Problem(key, reason) in problems;
      }
    }
  }

  lemma SnapshotPasses(re: Regex, committed: Option<Entry>, actual: Option<Entry>, declared: Option<Bump>)
    requires committed.Some? || actual.Some?
    ensures SnapshotProblem(re, committed, actual, declared) == None
            <==> committed.Some? && actual.Some? && SnapshotAgrees(re, committed.value, actual.value, declared)
  {
    hide FieldsChanges;
  }

  /** With no pending bump, the snapshot check passes exactly a snapshot that was
      regenerated; a pending bump lets through exactly the changes its kind covers. */
  lemma SnapshotExact(re: Regex, committed: Entry, actual: Entry, declared: Option<Bump>)
    ensures declared.None? ==>
              (SnapshotProblem(re, Some(committed), Some(actual), declared) == None <==> committed == actual)
    ensures declared.Some? ==>
              (SnapshotProblem(re, Some(committed), Some(actual), declared) == None
               <==> || (committed.digest == actual.digest && committed.fields == actual.fields)
                    || (&& declared.value != NoBump
                        && (HasMajor(FieldsChanges(re, committed.fields, actual.fields)) ==>
                            declared.value == MajorBump)))
  {
  }

  // ---------------------------------------------------------------- contract_version set apart

  function Apart(fields: Fields): Node {
    ObjectNode(fields - {CONTRACT_VERSION})
  }

  /** A path below the root and away from contract_version: its sub-paths stay so. */
  predicate Elsewhere(path: string) {
    path != "" && path != CONTRACT_VERSION
  }

  lemma SubPathsStayElsewhere(path: string, name: string)
    requires Elsewhere(path)
    ensures Elsewhere(Child(path, name)) && Elsewhere(path + "[]") && Elsewhere(path + "[*]")
  {
    var c := Child(path, name);
    assert c[|path|] == '.';
    assert (path + "[]")[|path|] == '[' && (path + "[*]")[|path|] == '[';
    assert '.' !in CONTRACT_VERSION && '[' !in CONTRACT_VERSION;
  }

  lemma {:induction false} PublishedElsewhere(re: Regex, v: Json, path: string)
    requires Elsewhere(path)
    ensures Published(re, v, path)
  {
    match v {
      case JArr(xs) =>
        forall x | x in xs
          ensures Published(re, x, path + "[]")
        {
          SubPathsStayElsewhere(path, "");
          PublishedElsewhere(re, x, path + "[]");
        }
      case JObj(fs) =>
        forall name | name in fs
          ensures Published(re, fs[name], Child(path, name)) && Published(re, fs[name], path + "[*]")
        {
          SubPathsStayElsewhere(path, name);
          PublishedElsewhere(re, fs[name], Child(path, name));
          PublishedElsewhere(re, fs[name], path + "[*]");
        }
      case _ =>
    }
  }

  lemma {:induction false} ChangesElsewhere(re: Regex, b: Node, a: Node, path: string, c: Change)
    requires Elsewhere(path) && c in SchemaChanges(re, b, a, path)
    ensures c.path != CONTRACT_VERSION
    decreases b
  {
    SubPathsStayElsewhere(path, "");
    if KindOf(b) == KindOf(a) {
      match b {
        case ObjectNode(ps) =>
          if a.ObjectNode? {
            var name := FieldBehind(re, b, a, path, c);
            SubPathsStayElsewhere(path, name);
            if name in ps && name in a.properties && c.path != Child(path, name) {
              ChangesElsewhere(re, ps[name].schema, a.properties[name].schema, Child(path, name), c);
            }
          }
        case MapNode(additional) =>
          if a.MapNode? { ChangesElsewhere(re, additional, a.additional, path + "[*]", c); }
        case ArrayNode(items, _) =>
          if c.path != path { ChangesElsewhere(re, items, a.items, path + "[]", c); }
        case UnionNode(_, _) => MemberChangesElsewhere(re, b, a, path, c);
        case _ =>
      }
    }
  }

  lemma {:induction false} MemberChangesElsewhere(re: Regex, b: Node, a: Node, path: string, c: Change)
    requires b.UnionNode? && a.UnionNode?
    requires Elsewhere(path) && c in UnionChanges(re, b, a, path)
    ensures c.path != CONTRACT_VERSION
    decreases b, 0
  {
    var tagged := Tagged(b.members, a.members);
    var bs, as_ := ByKey(b.members, tagged), ByKey(a.members, tagged);
    var k :| k in bs.Keys + as_.Keys && c in MemberChange(re, b, a, k, path);
    if k in bs && k in as_ {
      ChangesElsewhere(re, bs[k], as_[k], path, c);
    }
  }

  /** The release gate judges every change of the contracts without contract_version, when
      no field has an empty name (a property below an empty name has the path of a root one). */
  lemma ApartIsJudged(re: Regex, before: Entry, after: Entry)
    requires "" !in before.fields && "" !in after.fields
    ensures SchemaChanges(re, Apart(before.fields), Apart(after.fields), "") <= JudgedChanges(re, before, after)
  {
    var b, a := ObjectNode(before.fields), ObjectNode(after.fields);
    var b', a' := Apart(before.fields), Apart(after.fields);
    forall c | c in SchemaChanges(re, b', a', "")
      ensures c in JudgedChanges(re, before, after)
    {
      var name := FieldBehind(re, b', a', "", c);
      assert FieldChange(re, b', a', name, "") == FieldChange(re, b, a, name, "");
      FieldReported(re, b, a, name, "");
      RootChangeElsewhere(re, b, a, name, c);
    }
  }

  lemma RootChangeElsewhere(re: Regex, b: Node, a: Node, name: string, c: Change)
    requires b.ObjectNode? && a.ObjectNode? && Elsewhere(name)
    requires c in FieldChange(re, b, a, name, "")
    ensures c.path != CONTRACT_VERSION
  {
    if name in b.properties && name in a.properties && c.path != name {
      ChangesElsewhere(re, b.properties[name].schema, a.properties[name].schema, name, c);
    }
  }

  /** A property below a field with an empty name has the path of a root field, so the gate
      takes its changes for contract_version's own: here the nested field becomes required
      and the gate judges nothing. */
  lemma EmptyNameHidesAChange(re: Regex, version: Version, digest: string)
    ensures var plain := ScalarNode(StringT, NO_LIMITS);
            var before := Entry(version, digest,
                                map["" := Field(true, ObjectNode(map[CONTRACT_VERSION := Field(false, plain)]))]);
            var after := Entry(version, digest,
                               map["" := Field(true, ObjectNode(map[CONTRACT_VERSION := Field(true, plain)]))]);
            && ReleasedProblem(re, true, Some(before), Some(after)) == None
            && HasMajor(FieldsChanges(re, before.fields, after.fields))
  {
    var plain := ScalarNode(StringT, NO_LIMITS);
    var bn, an := ObjectNode(map[CONTRACT_VERSION := Field(false, plain)]),
        ObjectNode(map[CONTRACT_VERSION := Field(true, plain)]);
    var b, a := ObjectNode(map["" := Field(true, bn)]), ObjectNode(map["" := Field(true, an)]);
    var change := Change(CONTRACT_VERSION, MajorBump, RequiredChanged(true));
    NoLimitChanges(NO_LIMITS, NO_LIMITS, CONTRACT_VERSION);
    assert SchemaChanges(re, plain, plain, CONTRACT_VERSION) == {};
    assert FieldChange(re, bn, an, CONTRACT_VERSION, "") == {change};
    forall c
      ensures c in SchemaChanges(re, bn, an, "") <==> c == change
    {
      FieldReported(re, bn, an, CONTRACT_VERSION, "");
      if c in SchemaChanges(re, bn, an, "") {
        var name := FieldBehind(re, bn, an, "", c);
      }
    }
    assert FieldChange(re, b, a, "", "") == {change};
    forall c
      ensures c in SchemaChanges(re, b, a, "") <==> c == change
    {
      FieldReported(re, b, a, "", "");
      if c in SchemaChanges(re, b, a, "") {
        var name := FieldBehind(re, b, a, "", c);
      }
    }
    var before, after := Entry(version, digest, b.properties), Entry(version, digest, a.properties);
    assert change in FieldsChanges(re, before.fields, after.fields);
    assert JudgedChanges(re, before, after) == {};
  }
}
