/**
 Whole histories: a contract through any chain of releases that each pass the gate, and
 main's contracts through any sequence of merged branches whose pending bumps are resolved.
 */
module ReleaseHistory {
  import opened Common
  import opened JsonValues
  import opened StructuralNodes
  import opened SchemaDiff
  import opened DiffSoundness
  import opened DiffCompleteness
  import opened ContractBumps
  import opened ReleaseGates

  // ---------------------------------------------------------------- one step

  function ApartChanges(re: Regex, before: Entry, after: Entry): set<Change> {
    SchemaChanges(re, Apart(before.fields), Apart(after.fields), "")
  }

  /** The version moved enough for the shape change. */
  ghost predicate Covered(re: Regex, before: Entry, after: Entry) {
    && NotAbove(before.version, after.version)
    && (HasMajor(ApartChanges(re, before, after)) ==> before.version.major < after.version.major)
    && (ApartChanges(re, before, after) != {} ==> before.version != after.version)
  }

  /** No field with an empty name, and a diff whose label can be trusted. */
  predicate Trusted(before: Entry, after: Entry) {
    && "" !in before.fields && "" !in after.fields
    && Reliable(Apart(before.fields), Apart(after.fields))
  }

  predicate Comparable(before: Entry, after: Entry) {
    && "" !in before.fields && "" !in after.fields
    && Discerned(Apart(before.fields), Apart(after.fields))
  }

  lemma ReleaseStepCovered(re: Regex, before: Entry, after: Entry)
    requires ReleasedProblem(re, true, Some(before), Some(after)) == None
    requires "" !in before.fields && "" !in after.fields
    ensures Covered(re, before, after)
  {
    ApartIsJudged(re, before, after);
    var judged := JudgedChanges(re, before, after);
    assert HasMajor(ApartChanges(re, before, after)) ==> HasMajor(judged);
  }

  // ---------------------------------------------------------------- chains of covered steps

  ghost predicate CoveredChain(re: Regex, es: seq<Entry>) {
    forall i | 0 <= i < |es| - 1 :: Covered(re, es[i], es[i + 1])
  }

  lemma {:induction false} VersionsNeverGoBack(re: Regex, es: seq<Entry>, i: nat, j: nat)
    requires CoveredChain(re, es) && i <= j < |es|
    ensures NotAbove(es[i].version, es[j].version)
    decreases j
  {
    if i < j {
      VersionsNeverGoBack(re, es, i, j - 1);
      assert Covered(re, es[j - 1], es[j - 1 + 1]);
    }
  }

  /** Within one MAJOR, what an older shape accepted a newer one accepts. */
  lemma {:induction false} SameMajorCompatible(re: Regex, es: seq<Entry>, i: nat, j: nat, v: Json)
    requires CoveredChain(re, es) && i <= j < |es|
    requires forall k | 0 <= k < |es| - 1 :: Trusted(es[k], es[k + 1])
    requires es[i].version.major == es[j].version.major
    requires Valid(re, Apart(es[i].fields), v)
    ensures Valid(re, Apart(es[j].fields), v)
    decreases j
  {
    if i < j {
      VersionsNeverGoBack(re, es, i, j - 1);
      assert Covered(re, es[j - 1], es[j - 1 + 1]);
      SameMajorCompatible(re, es, i, j - 1, v);
      assert Trusted(es[j - 1], es[j - 1 + 1]);
      if Apart(es[j - 1].fields).properties != map[] {
        PublishedApart(re, Apart(es[j - 1].fields), v);
        DiffSound(re, Apart(es[j - 1].fields), Apart(es[j].fields), "", v);
      }
    }
  }

  /** A value without contract_version and without an empty field name needs no published
      version: no part of it is at that path. */
  lemma PublishedApart(re: Regex, node: Node, v: Json)
    requires node.ObjectNode? && Valid(re, node, v)
    requires CONTRACT_VERSION !in node.properties && "" !in node.properties
    requires node.properties != map[]
    ensures Published(re, v, "")
  {
    forall name | name in v.fields
      ensures Published(re, v.fields[name], Child("", name)) && Published(re, v.fields[name], "" + "[*]")
    {
      assert name in v.fields.Keys;
      PublishedElsewhere(re, v.fields[name], name);
      PublishedElsewhere(re, v.fields[name], "" + "[*]");
    }
  }

  /** Equal versions mean equal shapes. */
  lemma {:induction false} SameVersionSameShape(re: Regex, es: seq<Entry>, i: nat, j: nat)
    requires CoveredChain(re, es) && i <= j < |es|
    requires forall k | 0 <= k < |es| - 1 :: Comparable(es[k], es[k + 1])
    requires es[i].version == es[j].version
    ensures SameShape(Apart(es[i].fields), Apart(es[j].fields))
    decreases j
  {
    if i < j {
      VersionsNeverGoBack(re, es, i, j - 1);
      assert Covered(re, es[j - 1], es[j - 1 + 1]);
      SameVersionSameShape(re, es, i, j - 1);
      assert Comparable(es[j - 1], es[j - 1 + 1]);
      EmptyMeansSameShape(re, Apart(es[j - 1].fields), Apart(es[j].fields), "");
    }
  }

  /** The value without its contract_version field. */
  function WithoutVersion(v: Json): Json {
    if v.JObj? then JObj(v.fields - {CONTRACT_VERSION}) else v
  }

  lemma WithoutVersionIsApart(re: Regex, fields: Fields, v: Json)
    requires Valid(re, ObjectNode(fields), v)
    ensures Valid(re, Apart(fields), WithoutVersion(v))
  {
    var w, node := WithoutVersion(v), Apart(fields);
    forall name | name in w.fields && node.properties != map[]
      ensures name in node.properties
    {
      assert name in v.fields.Keys && name in fields;
    }
    forall name | name in node.properties && name in w.fields
      ensures Valid(re, node.properties[name].schema, w.fields[name])
    {
      assert node.properties[name] == fields[name] && w.fields[name] == v.fields[name];
    }
  }

  // ---------------------------------------------------------------- releases

  /** Every release is recorded at its tag, and the next one passes against it. */
  ghost predicate PassingReleases(re: Regex, releases: seq<Released>) {
    && (forall i | 0 <= i < |releases| :: releases[i].tag.Some?)
    && (forall i | 0 <= i < |releases| - 1 :: PassesReleased(re, releases[i], releases[i + 1].contracts))
  }

  lemma {:induction false} ContractsStay(re: Regex, releases: seq<Released>, j: nat)
    requires PassingReleases(re, releases) && j < |releases|
    ensures releases[j].contracts.Keys == releases[0].contracts.Keys
  {
    if j > 0 {
      ContractsStay(re, releases, j - 1);
      var before, after := releases[j - 1], releases[j - 1 + 1];
      assert PassesReleased(re, before, after.contracts);
      forall key
        ensures key in before.contracts <==> key in after.contracts
      {
        if key in before.contracts.Keys + after.contracts.Keys {
          assert ReleasedProblem(re, true, Get(before.contracts, key), Get(after.contracts, key)) == None;
        }
      }
    }
  }

  /** One contract's entries through the releases. */
  ghost function EntriesOf(re: Regex, releases: seq<Released>, key: string): (es: seq<Entry>)
    requires PassingReleases(re, releases) && releases != [] && key in releases[0].contracts
    ensures |es| == |releases|
    ensures forall i | 0 <= i < |es| :: key in releases[i].contracts && es[i] == releases[i].contracts[key]
  {
    assert forall i | 0 <= i < |releases| :: key in releases[i].contracts by {
      forall i | 0 <= i < |releases|
        ensures key in releases[i].contracts
      {
        ContractsStay(re, releases, i);
        assert key in releases[0].contracts.Keys;
      }
    }
    seq(|releases|, i requires 0 <= i < |releases| && key in releases[i].contracts => releases[i].contracts[key])
  }

  ghost predicate NoEmptyNames(es: seq<Entry>) {
    forall i | 0 <= i < |es| :: "" !in es[i].fields
  }

  lemma ReleasesAreCovered(re: Regex, releases: seq<Released>, key: string)
    requires PassingReleases(re, releases) && releases != [] && key in releases[0].contracts
    requires NoEmptyNames(EntriesOf(re, releases, key))
    ensures CoveredChain(re, EntriesOf(re, releases, key))
  {
    var es := EntriesOf(re, releases, key);
    forall i | 0 <= i < |es| - 1
      ensures Covered(re, es[i], es[i + 1])
    {
      var before, after := releases[i], releases[i + 1];
      assert PassesReleased(re, before, after.contracts);
      assert key in before.contracts.Keys + after.contracts.Keys;
      assert ReleasedProblem(re, true, Get(before.contracts, key), Get(after.contracts, key)) == None;
      ReleaseStepCovered(re, es[i], es[i + 1]);
    }
  }

  /** The promise to callers, over the whole history: no contract disappears, its version
      never goes back, and while its MAJOR stays what it was, every value an older release
      accepted is accepted without its contract_version field by a newer one. */
  lemma ReleaseHistoryCompatible(re: Regex, releases: seq<Released>, key: string, i: nat, j: nat, v: Json)
    requires PassingReleases(re, releases) && i <= j < |releases| && key in releases[0].contracts
    requires var es := EntriesOf(re, releases, key);
             NoEmptyNames(es) && forall k | 0 <= k < |es| - 1 :: Trusted(es[k], es[k + 1])
    ensures key in releases[i].contracts && key in releases[j].contracts
    ensures NotAbove(releases[i].contracts[key].version, releases[j].contracts[key].version)
    ensures releases[i].contracts[key].version.major == releases[j].contracts[key].version.major
            && Valid(re, ObjectNode(releases[i].contracts[key].fields), v)
            ==> Valid(re, Apart(releases[j].contracts[key].fields), WithoutVersion(v))
  {
    var es := EntriesOf(re, releases, key);
    ReleasesAreCovered(re, releases, key);
    VersionsNeverGoBack(re, es, i, j);
    if es[i].version.major == es[j].version.major && Valid(re, ObjectNode(es[i].fields), v) {
      WithoutVersionIsApart(re, es[i].fields, v);
      SameMajorCompatible(re, es, i, j, WithoutVersion(v));
    }
  }

  /** Two releases of one contract at one version have one shape. */
  lemma ReleaseVersionFixesShape(re: Regex, releases: seq<Released>, key: string, i: nat, j: nat)
    requires PassingReleases(re, releases) && i <= j < |releases| && key in releases[0].contracts
    requires var es := EntriesOf(re, releases, key);
             NoEmptyNames(es) && forall k | 0 <= k < |es| - 1 :: Comparable(es[k], es[k + 1])
    ensures key in releases[i].contracts && key in releases[j].contracts
    ensures releases[i].contracts[key].version == releases[j].contracts[key].version
            ==> SameShape(Apart(releases[i].contracts[key].fields), Apart(releases[j].contracts[key].fields))
  {
    var es := EntriesOf(re, releases, key);
    ReleasesAreCovered(re, releases, key);
    if es[i].version == es[j].version {
      SameVersionSameShape(re, es, i, j);
    }
  }

  // ---------------------------------------------------------------- merges

  /** A branch that changes one contract: its new shape and the pending kinds it declares.
      While they are pending, the branch keeps main's version. */
  datatype Branch = Branch(digest: string, fields: Fields, kinds: seq<Bump>)

  function AtMainsVersion(main: Entry, branch: Branch): Entry {
    Entry(main.version, branch.digest, branch.fields)
  }

  function Declared(branch: Branch): Option<Bump> {
    if branch.kinds == [] then None else Some(StrongestOf(branch.kinds))
  }

  ghost predicate WellDeclared(branch: Branch) {
    forall k | k in branch.kinds :: Declarable(k)
  }

  /** The entry the branch lands with: main's version, bumped by the strongest kind. */
  function Resolved(main: Entry, branch: Branch): Entry
    requires branch.kinds != [] ==> Declarable(StrongestOf(branch.kinds))
  {
    var version := if branch.kinds == [] then main.version
                   else BumpVersion(main.version, StrongestOf(branch.kinds)).value;
    Entry(version, branch.digest, branch.fields)
  }

  /** A branch passes the check at main's version with its pending bumps exactly when it
      passes resolved, with none pending: the declaration and the number promise the same. */
  lemma DeclareThenResolve(re: Regex, main: Entry, branch: Branch)
    requires branch.kinds != [] && WellDeclared(branch)
    ensures Declarable(StrongestOf(branch.kinds))
    ensures Below(main.version, Resolved(main, branch).version)
    ensures BaseProblem(re, main, AtMainsVersion(main, branch), Declared(branch)) == None
            <==> BaseProblem(re, main, Resolved(main, branch), None) == None
  {
    StrongestIsDeclarable(branch.kinds);
  }

  /** main after a run of merges: each branch passes against the main it lands on. */
  ghost predicate MergedRun(re: Regex, es: seq<Entry>, branches: seq<Branch>) {
    && |es| == |branches| + 1
    && (forall i | 0 <= i < |branches| ::
          && WellDeclared(branches[i])
          && BaseProblem(re, es[i], AtMainsVersion(es[i], branches[i]), Declared(branches[i])) == None
          && (branches[i].kinds != [] ==> Declarable(StrongestOf(branches[i].kinds)))
          && es[i + 1] == Resolved(es[i], branches[i]))
  }

  lemma MergesAreCovered(re: Regex, es: seq<Entry>, branches: seq<Branch>)
    requires MergedRun(re, es, branches) && NoEmptyNames(es)
    ensures CoveredChain(re, es)
  {
    forall i | 0 <= i < |es| - 1
      ensures Covered(re, es[i], es[i + 1])
    {
      var main, branch := es[i], branches[i];
      ApartIsJudged(re, main, es[i + 1]);
      var changes := FieldsChanges(re, main.fields, branch.fields);
      assert ApartChanges(re, main, es[i + 1]) <= changes;
      assert HasMajor(ApartChanges(re, main, es[i + 1])) ==> HasMajor(changes);
      assert branch.kinds == [] ==> changes == {};
    }
  }

  /** In whatever order branches land, the versions they take strictly increase, so no two
      claim the same number. */
  lemma {:induction false} MergeVersionsIncrease(re: Regex, es: seq<Entry>, branches: seq<Branch>, i: nat, j: nat)
    requires MergedRun(re, es, branches) && i < j <= |branches|
    requires branches[j - 1].kinds != []
    ensures Below(es[i].version, es[j].version)
  {
    DeclareThenResolve(re, es[j - 1], branches[j - 1]);
    MergesNeverGoBack(re, es, branches, i, j - 1);
  }

  lemma {:induction false} MergesNeverGoBack(re: Regex, es: seq<Entry>, branches: seq<Branch>, i: nat, j: nat)
    requires MergedRun(re, es, branches) && i <= j <= |branches|
    ensures NotAbove(es[i].version, es[j].version)
    decreases j
  {
    if i < j {
      MergesNeverGoBack(re, es, branches, i, j - 1);
      if branches[j - 1].kinds != [] {
        DeclareThenResolve(re, es[j - 1], branches[j - 1]);
      }
    }
  }

  /** And while main's MAJOR stays what it was, main accepts what it accepted. */
  lemma MergesStayCompatible(re: Regex, es: seq<Entry>, branches: seq<Branch>, i: nat, j: nat, v: Json)
    requires MergedRun(re, es, branches) && i <= j < |es| && NoEmptyNames(es)
    requires forall k | 0 <= k < |es| - 1 :: Trusted(es[k], es[k + 1])
    requires es[i].version.major == es[j].version.major
    requires Valid(re, ObjectNode(es[i].fields), v)
    ensures Valid(re, Apart(es[j].fields), WithoutVersion(v))
  {
    MergesAreCovered(re, es, branches);
    WithoutVersionIsApart(re, es[i].fields, v);
    SameMajorCompatible(re, es, i, j, WithoutVersion(v));
  }
}
