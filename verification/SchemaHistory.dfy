/**
 Release histories said of the released schemas themselves, as loaded, with their $refs: the
 history of trees in ReleaseHistory carried back through inlining and reduction.
 */
module SchemaHistory {
  import opened JsonValues
  import opened StructuralNodes
  import opened SchemaDiff
  import opened RefInlining
  import opened StructuralReduction
  import opened ReleaseGates
  import opened ReleaseHistory

  /** A contract's model as a release ships it: its schema, its definitions, and whether its
      objects are closed. */
  datatype Model = Model(env: Env, bound: nat, schema: Raw, closed: bool)

  /** The entry records the model's field summary. */
  ghost predicate Records(re: Regex, e: Entry, m: Model) {
    && Summarised(m.env, re, m.bound, m.schema, m.closed)
    && e.fields == FieldSummary(Canonical(m.env, m.schema))
  }

  /** The model accepts the value, which carries declared properties only. */
  ghost predicate Takes(re: Regex, m: Model, v: Json)
    requires Summarised(m.env, re, m.bound, m.schema, m.closed)
  {
    Accepts(m.env, m.bound, m.schema, v) && OnlyDeclared(m.env, m.schema, v)
  }

  lemma TakesIsValid(re: Regex, e: Entry, m: Model, v: Json)
    requires Records(re, e, m)
    ensures Takes(re, m, v) <==> Valid(re, ObjectNode(e.fields), v)
  {
    SummaryKeepsMeaning(m.env, re, m.bound, m.schema, m.closed, v);
  }

  /** The value as a writer of the entry's release would stamp it. */
  function Stamped(e: Entry, v: Json, version: Json): Json {
    if !v.JObj? then v
    else if CONTRACT_VERSION in e.fields then JObj(v.fields[CONTRACT_VERSION := version])
    else JObj(v.fields - {CONTRACT_VERSION})
  }

  /** Within one MAJOR no field disappears. */
  lemma {:induction false} FieldsStay(re: Regex, es: seq<Entry>, i: nat, j: nat)
    requires CoveredChain(re, es) && i <= j < |es|
    requires es[i].version.major == es[j].version.major
    ensures Apart(es[i].fields).properties.Keys <= Apart(es[j].fields).properties.Keys
    decreases j
  {
    if i < j {
      VersionsNeverGoBack(re, es, i, j - 1);
      assert Covered(re, es[j - 1], es[j - 1 + 1]);
      FieldsStay(re, es, i, j - 1);
      NoFieldLost(re, Apart(es[j - 1].fields), Apart(es[j].fields));
    }
  }

  lemma NoFieldLost(re: Regex, b: Node, a: Node)
    requires b.ObjectNode? && a.ObjectNode? && !HasMajor(SchemaChanges(re, b, a, ""))
    ensures b.properties.Keys <= a.properties.Keys
  {
    forall name | name in b.properties
      ensures name in a.properties
    {
      var cs := FieldChange(re, b, a, name, "");
      FieldReported(re, b, a, name, "");
      assert name !in a.properties ==> Change(Child("", name), MajorBump, FieldRemoved) in cs;
    }
  }

  lemma StampedIsValid(re: Regex, e: Entry, v: Json, version: Json)
    requires v.JObj? && Valid(re, Apart(e.fields), WithoutVersion(v)) && Apart(e.fields).properties != map[]
    requires CONTRACT_VERSION in e.fields ==> Valid(re, e.fields[CONTRACT_VERSION].schema, version)
    ensures Valid(re, ObjectNode(e.fields), Stamped(e, v, version))
  {
    var now, apart := Stamped(e, v, version), WithoutVersion(v);
    forall name | name in now.fields
      ensures name in e.fields && Valid(re, e.fields[name].schema, now.fields[name])
    {
      if name != CONTRACT_VERSION {
        assert name in apart.fields.Keys && name in Apart(e.fields).properties;
        assert apart.fields[name] == now.fields[name];
      }
    }
    forall name | name in e.fields && e.fields[name].required
      ensures name in now.fields
    {
      assert name != CONTRACT_VERSION ==> name in Apart(e.fields).properties && name in apart.fields;
    }
  }

  /** The promise to callers, of schemas: along any chain of releases that each pass, while
      the MAJOR stays, a value an older release's schema accepts with declared properties only
      is accepted by a newer one's, once it carries a version the newer one declares. */
  lemma SchemaHistoryCompatible(re: Regex, releases: seq<Released>, key: string, models: seq<Model>,
                                i: nat, j: nat, v: Json, version: Json)
    requires PassingReleases(re, releases) && i <= j < |releases| && key in releases[0].contracts
    requires var es := EntriesOf(re, releases, key);
             && NoEmptyNames(es) && (forall k | 0 <= k < |es| - 1 :: Trusted(es[k], es[k + 1]))
             && |models| == |es| && (forall k | 0 <= k < |es| :: Records(re, es[k], models[k]))
             && es[i].version.major == es[j].version.major
             && Apart(es[i].fields).properties != map[]
             && (CONTRACT_VERSION in es[j].fields ==> Valid(re, es[j].fields[CONTRACT_VERSION].schema, version))
    requires Takes(re, models[i], v)
    ensures Takes(re, models[j], Stamped(EntriesOf(re, releases, key)[j], v, version))
  {
    var es := EntriesOf(re, releases, key);
    ReleasesAreCovered(re, releases, key);
    TakesIsValid(re, es[i], models[i], v);
    ReleaseHistoryCompatible(re, releases, key, i, j, v);
    FieldsStay(re, es, i, j);
    assert Apart(es[j].fields).properties.Keys != {};
    StampedIsValid(re, es[j], v, version);
    TakesIsValid(re, es[j], models[j], Stamped(es[j], v, version));
  }
}
