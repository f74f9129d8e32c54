/**
 The label MAJOR is no false alarm: wherever Precise holds, the diff reports a MAJOR change
 exactly when some value the old schema accepted is rejected by the new one.
 */
module DiffPrecision {
  import opened Common
  import opened JsonValues
  import opened StructuralNodes
  import opened SchemaDiff
  import opened DiffSoundness
  import opened DiffCompleteness

  ghost predicate Inhabited(re: Regex, node: Node) {
    exists v :: Valid(re, node, v)
  }

  ghost function Sample(re: Regex, node: Node): (v: Json)
    requires Inhabited(re, node)
    ensures Valid(re, node, v)
  {
    var v :| Valid(re, node, v);
    v
  }

  /** A tree that did not change; or kinds and scalar types that change accept nothing in
      common, a node's constraints stay or are one bound that moved, field schemas and union
      members accept something, and union members are told apart. */
  ghost predicate Precise(re: Regex, b: Node, a: Node) {
    b == a ||
    if KindOf(b) != KindOf(a) then Inhabited(re, b) && Classes(b) !! Classes(a)
    else
      match b
      case ConstNode(c) => !Twins(c, a.value)
      case EnumNode(cs) => forall x, y | x in cs && y in a.values :: !Twins(x, y)
      case UnionNode(_, ms) =>
        var tagged := Tagged(ms, a.members);
        var bs, as_ := ByKey(ms, tagged), ByKey(a.members, tagged);
        && Separate(re, b, a)
        && (forall k | k in bs && k in as_ :: Precise(re, bs[k], as_[k]))
      case ArrayNode(items, limits) => limits == a.limits && Roomy(limits) && Precise(re, items, a.items)
      case ObjectNode(ps) =>
        && a.ObjectNode? && (ps == map[] <==> a.properties == map[])
        && (forall name | name in ps :: Inhabited(re, ps[name].schema))
        && (forall name | name in ps && name in a.properties :: Precise(re, ps[name].schema, a.properties[name].schema))
      case MapNode(additional) => a.MapNode? && Precise(re, additional, a.additional)
      case ScalarNode(typ, limits) =>
        || (limits == a.limits && (typ == a.typ || (Inhabited(re, b) && Classes(b) !! Classes(a))))
        || (typ == a.typ && exists key: NumberKey :: BoundMoved(typ, key, limits, a.limits))
  }

  /** No member is behind another of its key, each old one accepts something, and members of
      different keys, and of one oneOf, accept nothing in common. */
  ghost predicate Separate(re: Regex, b: Node, a: Node)
    requires b.UnionNode? && a.UnionNode?
  {
    var tagged := Tagged(b.members, a.members);
    var bs, as_ := ByKey(b.members, tagged), ByKey(a.members, tagged);
    && (forall m | m in b.members :: bs[KeyOf(m, tagged)] == m && Inhabited(re, m))
    && (forall n | n in a.members :: as_[KeyOf(n, tagged)] == n)
    && (forall k, l | k in bs && l in as_ && k != l :: Exclusive(bs[k], as_[l]))
    && (b.op.OneOf? ==> PairwiseExclusive(b.members) && PairwiseExclusive(a.members))
  }

  /** An array with an element can meet the limits. */
  predicate Roomy(limits: Limits) {
    && NaturalBound(MinItems, limits)
    && (MaxItems in limits.numbers ==>
          && limits.numbers[MaxItems] >= 1.0
          && (MinItems in limits.numbers ==> limits.numbers[MinItems] <= limits.numbers[MaxItems]))
  }

  /** At most the one bound, and no pattern. */
  predicate Sole(key: NumberKey, limits: Limits) {
    limits.pattern.None? && limits.numbers.Keys <= {key}
  }

  predicate NaturalBound(key: NumberKey, limits: Limits) {
    key in limits.numbers ==> limits.numbers[key] == limits.numbers[key].Floor as real >= 0.0
  }

  predicate IsBound(key: NumberKey) {
    key == Minimum || key == ExclusiveMinimum || key == Maximum || key == ExclusiveMaximum
  }

  /** One bound on a number, an integer or a string's length, added, moved or removed. False
      alarms: a new length bound of zero, and an integer bound that moves between integers. */
  predicate BoundMoved(typ: ScalarType, key: NumberKey, before: Limits, after: Limits) {
    && Sole(key, before) && Sole(key, after)
    && match typ
       case NumberT => IsBound(key)
       case IntegerT =>
         var was, now := Get(before.numbers, key), Get(after.numbers, key);
         IsBound(key) && (Tighter(key, was, now) ==> Tighter(key, Rounded(key, was), Rounded(key, now)))
       case StringT =>
         && (key == MinLength || key == MaxLength) && NaturalBound(key, before) && NaturalBound(key, after)
         && !(key == MinLength && key !in before.numbers && key in after.numbers && after.numbers[key] == 0.0)
       case _ => false
  }

  /** The label says exactly whether a value is lost. */
  ghost predicate Exact(re: Regex, b: Node, a: Node, path: string) {
    HasMajor(SchemaChanges(re, b, a, path)) <==> !Subsumes(re, b, a)
  }

  lemma {:induction false} NotAdopted(re: Regex, b: Node, a: Node)
    requires Precise(re, b, a)
    ensures !PatternAdopted(re, b, a)
  {
    assert a.ScalarNode? && a.limits.pattern.Some? ==> forall key: NumberKey :: !Sole(key, a.limits);
    assert b.ConstNode? && b.value.SStr? ==> StrC in Classes(b);
    assert a == ScalarNode(StringT, Limits(map[], Some(VERSION_PATTERN))) ==> StrC in Classes(a);
  }

  lemma NothingInCommon(re: Regex, b: Node, a: Node)
    requires Inhabited(re, b) && Classes(b) !! Classes(a)
    ensures !Subsumes(re, b, a)
  {
    var v := Sample(re, b);
    ValidClass(re, b, v);
    if Valid(re, a, v) {
      ValidClass(re, a, v);
    }
  }

  lemma EnumPrecise(re: Regex, cs: seq<Scalar>, ds: seq<Scalar>, path: string)
    requires forall x, y | x in cs && y in ds :: !Twins(x, y)
    ensures HasMajor(EnumChanges(cs, ds, path)) <==> !Subsumes(re, EnumNode(cs), EnumNode(ds))
  {
    if HasMajor(EnumChanges(cs, ds, path)) {
      var x :| x in PySet(cs) && !PyIn(x, ds);
      PyInPySet(x, cs);
      assert Valid(re, EnumNode(cs), ToJson(x));
      assert forall y | y in ds :: SameJson(x, y) ==> PyEq(x, y);
      assert forall y | y in ds :: !SameJson(x, y);
    } else {
      forall v | Valid(re, EnumNode(cs), v)
        ensures Valid(re, EnumNode(ds), v)
      {
        var c :| c in cs && v == ToJson(c);
        EnumSound(cs, ds, path, c);
      }
    }
  }

  lemma ArrayPrecise(re: Regex, items: Node, items': Node, limits: Limits)
    requires Roomy(limits)
    ensures Subsumes(re, items, items') <==> Subsumes(re, ArrayNode(items, limits), ArrayNode(items', limits))
  {
    var b, a := ArrayNode(items, limits), ArrayNode(items', limits);
    if x :| Valid(re, items, x) && !Valid(re, items', x) {
      var least := Get(limits.numbers, MinItems);
      var n := if least.Some? && least.value >= 1.0 then least.value.Floor else 1;
      var v := JArr(seq(n, _ => x));
      assert v.items[0] == x && x in v.items;
      assert forall y | y in v.items :: y == x;
      assert LimitsHold(re, limits, v);
      assert Valid(re, b, v) && !Valid(re, a, v);
    } else {
      forall v | Valid(re, b, v)
        ensures Valid(re, a, v)
      {
        assert forall x | x in v.items :: Valid(re, items, x);
      }
    }
  }

  lemma MapPrecise(re: Regex, values: Node, values': Node)
    ensures Subsumes(re, values, values') <==> Subsumes(re, MapNode(values), MapNode(values'))
  {
    var b, a := MapNode(values), MapNode(values');
    if x :| Valid(re, values, x) && !Valid(re, values', x) {
      var v := JObj(map["key" := x]);
      assert v.fields["key"] == x;
      assert Valid(re, b, v) && !Valid(re, a, v);
    } else {
      forall v | Valid(re, b, v)
        ensures Valid(re, a, v)
      {
        assert forall name | name in v.fields :: Valid(re, values, v.fields[name]);
      }
    }
  }

  // ---------------------------------------------------------------- objects

  /** What one field name can lose. */
  ghost predicate Loses(re: Regex, ps: Fields, qs: Fields, name: string) {
    || (name in qs && qs[name].required && !(name in ps && ps[name].required))
    || (name in ps && name !in qs)
    || (name in ps && name in qs && !Subsumes(re, ps[name].schema, qs[name].schema))
  }

  lemma FieldPrecise(re: Regex, b: Node, a: Node, name: string, path: string)
    requires b.ObjectNode? && a.ObjectNode?
    requires name in b.properties && name in a.properties ==>
               Exact(re, b.properties[name].schema, a.properties[name].schema, Child(path, name))
    ensures HasMajor(FieldChange(re, b, a, name, path)) <==> Loses(re, b.properties, a.properties, name)
  {
    var ps, qs := b.properties, a.properties;
    var cs := FieldChange(re, b, a, name, path);
    if name in ps && name in qs {
      var inner := SchemaChanges(re, ps[name].schema, qs[name].schema, Child(path, name));
      assert forall c :: c in inner ==> c in cs;
      assert !ps[name].required && qs[name].required ==>
             Change(Child(path, name), MajorBump, RequiredChanged(true)) in cs;
      assert forall c :: c in cs && c.bump == MajorBump ==> c in inner || (!ps[name].required && qs[name].required);
    } else if name in ps {
      assert Change(Child(path, name), MajorBump, FieldRemoved) in cs;
    } else if name in qs && qs[name].required {
      assert Change(Child(path, name), MajorBump, FieldAdded(true)) in cs;
    }
  }

  /** An object with every declared field. */
  ghost function Full(re: Regex, ps: Fields): map<string, Json>
    requires forall name | name in ps :: Inhabited(re, ps[name].schema)
  {
    map name | name in ps :: Sample(re, ps[name].schema)
  }

  lemma LosingFieldLosesValue(re: Regex, ps: Fields, qs: Fields, name: string)
    requires ps != map[] && qs != map[] && Loses(re, ps, qs, name)
    requires forall f | f in ps :: Inhabited(re, ps[f].schema)
    ensures !Subsumes(re, ObjectNode(ps), ObjectNode(qs))
  {
    var b, a := ObjectNode(ps), ObjectNode(qs);
    var full := Full(re, ps);
    if name in ps && name in qs && !Subsumes(re, ps[name].schema, qs[name].schema) {
      var x :| Valid(re, ps[name].schema, x) && !Valid(re, qs[name].schema, x);
      var v := JObj(full[name := x]);
      assert v.fields[name] == x && v.fields.Keys == ps.Keys;
      assert Valid(re, b, v) && !Valid(re, a, v);
    } else if name in ps && name !in qs {
      var v := JObj(full);
      assert name in v.fields.Keys;
      assert Valid(re, b, v) && !Valid(re, a, v);
    } else {
      var v := JObj(full - {name});
      assert v.fields.Keys == ps.Keys - {name};
      assert Valid(re, b, v) && !Valid(re, a, v);
    }
  }

  lemma LosingNoFieldLosesNone(re: Regex, ps: Fields, qs: Fields)
    requires ps != map[] && forall name :: !Loses(re, ps, qs, name)
    ensures Subsumes(re, ObjectNode(ps), ObjectNode(qs))
  {
    var b, a := ObjectNode(ps), ObjectNode(qs);
    forall v | Valid(re, b, v)
      ensures Valid(re, a, v)
    {
      forall name | name in v.fields
        ensures name in ps && name in qs && Valid(re, qs[name].schema, v.fields[name])
      {
        assert name in v.fields.Keys;
        assert !Loses(re, ps, qs, name);
      }
      forall name | name in qs && qs[name].required
        ensures name in v.fields
      {
        assert !Loses(re, ps, qs, name);
      }
    }
  }

  /** Exactness composes: labels exact field by field are exact for the object. */
  lemma ObjectPrecise(re: Regex, b: Node, a: Node, path: string)
    requires b.ObjectNode? && a.ObjectNode? && b.properties != map[] && a.properties != map[]
    requires forall name | name in b.properties :: Inhabited(re, b.properties[name].schema)
    requires forall name | name in b.properties && name in a.properties ::
               Exact(re, b.properties[name].schema, a.properties[name].schema, Child(path, name))
    ensures HasMajor(ObjectChanges(re, b, a, path)) <==> !Subsumes(re, b, a)
  {
    var ps, qs := b.properties, a.properties;
    var changes := ObjectChanges(re, b, a, path);
    assert changes == FieldChangesOver(re, b, a, ps.Keys + qs.Keys, path);
    forall name
      ensures HasMajor(FieldChange(re, b, a, name, path)) <==> Loses(re, ps, qs, name)
    {
      FieldPrecise(re, b, a, name, path);
    }
    if HasMajor(changes) {
      var c :| c in changes && c.bump == MajorBump;
      var name :| name in ps.Keys + qs.Keys && c in FieldChange(re, b, a, name, path);
      LosingFieldLosesValue(re, ps, qs, name);
    } else {
      forall name
        ensures !Loses(re, ps, qs, name)
      {
        if name in ps.Keys + qs.Keys {
          assert FieldChange(re, b, a, name, path) <= changes;
          NoMajorIn(changes, FieldChange(re, b, a, name, path));
        }
      }
      LosingNoFieldLosesNone(re, ps, qs);
    }
  }

  /** Dropping every property of an object frees its form: MAJOR, and nothing is lost. */
  lemma FreedObjectIsAFalseAlarm(re: Regex, before: Fields, path: string)
    requires before != map[]
    ensures HasMajor(SchemaChanges(re, ObjectNode(before), ObjectNode(map[]), path))
    ensures Subsumes(re, ObjectNode(before), ObjectNode(map[]))
  {
    var b, a := ObjectNode(before), ObjectNode(map[]);
    var name :| name in before;
    FieldReported(re, b, a, name, path);
    assert Change(Child(path, name), MajorBump, FieldRemoved) in FieldChange(re, b, a, name, path);
  }

  // ---------------------------------------------------------------- unions

  /** What one key can lose. */
  ghost predicate KeyLoses(re: Regex, bs: map<MemberKey, Node>, as_: map<MemberKey, Node>, k: MemberKey) {
    k in bs && (k !in as_ || !Subsumes(re, bs[k], as_[k]))
  }

  lemma MemberPrecise(re: Regex, b: Node, a: Node, k: MemberKey, path: string)
    requires b.UnionNode? && a.UnionNode?
    requires var tagged := Tagged(b.members, a.members);
             var bs, as_ := ByKey(b.members, tagged), ByKey(a.members, tagged);
             k in bs && k in as_ ==> Exact(re, bs[k], as_[k], path)
    ensures var tagged := Tagged(b.members, a.members);
            HasMajor(MemberChange(re, b, a, k, path))
            <==> KeyLoses(re, ByKey(b.members, tagged), ByKey(a.members, tagged), k)
  {
    var tagged := Tagged(b.members, a.members);
    var bs, as_ := ByKey(b.members, tagged), ByKey(a.members, tagged);
    assert k in bs && k !in as_ ==> Change(path, MajorBump, MemberLost(k)) in MemberChange(re, b, a, k, path);
  }

  /** A value of a member is a value of its union. */
  lemma MemberValid(re: Regex, u: Node, i: nat, v: Json)
    requires u.UnionNode? && i < |u.members| && Valid(re, u.members[i], v)
    requires u.op.OneOf? ==> PairwiseExclusive(u.members)
    ensures Valid(re, u, v)
  {
    if u.op.OneOf? {
      forall j | 0 <= j < |u.members| && j != i
        ensures !Valid(re, u.members[j], v)
      {
        if Valid(re, u.members[j], v) {
          if i < j {
            ExclusiveMembersShareNoValue(re, u.members[i], u.members[j], v);
          } else {
            ExclusiveMembersShareNoValue(re, u.members[j], u.members[i], v);
          }
        }
      }
    }
  }

  lemma LosingKeyLosesValue(re: Regex, b: Node, a: Node, k: MemberKey)
    requires b.UnionNode? && a.UnionNode? && b.op == a.op && Separate(re, b, a)
    requires var tagged := Tagged(b.members, a.members);
             KeyLoses(re, ByKey(b.members, tagged), ByKey(a.members, tagged), k)
    ensures !Subsumes(re, b, a)
  {
    var tagged := Tagged(b.members, a.members);
    var bs, as_ := ByKey(b.members, tagged), ByKey(a.members, tagged);
    var v := LostBehind(re, bs[k], if k in as_ then Some(as_[k]) else None);
    var i :| 0 <= i < |b.members| && b.members[i] == bs[k];
    MemberValid(re, b, i, v);
    forall j | 0 <= j < |a.members|
      ensures !Valid(re, a.members[j], v)
    {
      var n := a.members[j];
      var l := KeyOf(n, tagged);
      assert n in a.members && l in as_ && as_[l] == n;
      if l != k {
        ExclusiveMembersShareNoValue(re, bs[k], as_[l], v);
      }
    }
  }

  /** A value of the old member that the new one, if any, rejects. */
  lemma LostBehind(re: Regex, m: Node, n: Option<Node>) returns (v: Json)
    requires Inhabited(re, m) && (n.Some? ==> !Subsumes(re, m, n.value))
    ensures Valid(re, m, v) && (n.Some? ==> !Valid(re, n.value, v))
  {
    if n.Some? {
      v :| Valid(re, m, v) && !Valid(re, n.value, v);
    } else {
      v := Sample(re, m);
    }
  }

  lemma LosingNoKeyLosesNone(re: Regex, b: Node, a: Node)
    requires b.UnionNode? && a.UnionNode? && b.op == a.op && Separate(re, b, a)
    requires var tagged := Tagged(b.members, a.members);
             forall k :: !KeyLoses(re, ByKey(b.members, tagged), ByKey(a.members, tagged), k)
    ensures Subsumes(re, b, a)
  {
    var tagged := Tagged(b.members, a.members);
    var bs, as_ := ByKey(b.members, tagged), ByKey(a.members, tagged);
    forall v | Valid(re, b, v)
      ensures Valid(re, a, v)
    {
      var i :| 0 <= i < |b.members| && Valid(re, b.members[i], v);
      var k := KeyOf(b.members[i], tagged);
      assert b.members[i] in b.members && bs[k] == b.members[i] && !KeyLoses(re, bs, as_, k);
      var j :| 0 <= j < |a.members| && a.members[j] == as_[k];
      MemberValid(re, a, j, v);
    }
  }

  /** Exactness composes through unions whose members are told apart. */
  lemma UnionPrecise(re: Regex, b: Node, a: Node, path: string)
    requires b.UnionNode? && a.UnionNode? && b.op == a.op && Separate(re, b, a)
    requires var tagged := Tagged(b.members, a.members);
             var bs, as_ := ByKey(b.members, tagged), ByKey(a.members, tagged);
             forall k | k in bs && k in as_ :: Exact(re, bs[k], as_[k], path)
    ensures HasMajor(UnionChanges(re, b, a, path)) <==> !Subsumes(re, b, a)
  {
    var tagged := Tagged(b.members, a.members);
    var bs, as_ := ByKey(b.members, tagged), ByKey(a.members, tagged);
    var changes := UnionChanges(re, b, a, path);
    assert changes == MemberChangesOver(re, b, a, bs.Keys + as_.Keys, path);
    forall k
      ensures HasMajor(MemberChange(re, b, a, k, path)) <==> KeyLoses(re, bs, as_, k)
    {
      MemberPrecise(re, b, a, k, path);
    }
    hide Separate, Subsumes;
    if HasMajor(changes) {
      var c :| c in changes && c.bump == MajorBump;
      var k :| k in bs.Keys + as_.Keys && c in MemberChange(re, b, a, k, path);
      LosingKeyLosesValue(re, b, a, k);
    } else {
      forall k
        ensures !KeyLoses(re, bs, as_, k)
      {
        if k in bs.Keys {
          assert MemberChange(re, b, a, k, path) <= changes;
          NoMajorIn(changes, MemberChange(re, b, a, k, path));
        }
      }
      LosingNoKeyLosesNone(re, b, a);
    }
  }

  // ---------------------------------------------------------------- the whole tree

  /** MAJOR if and only if a value is lost, for every precise pair and every path. */
  lemma {:induction false} LabelExact(re: Regex, b: Node, a: Node, path: string)
    requires Precise(re, b, a)
    ensures HasMajor(SchemaChanges(re, b, a, path)) <==> !Subsumes(re, b, a)
    decreases b
  {
    NotAdopted(re, b, a);
    var changes := SchemaChanges(re, b, a, path);
    if b == a {
      SelfDiff(re, b, path);
    } else if KindOf(b) != KindOf(a) {
      assert Change(path, MajorBump, TypeChanged) in changes;
      NothingInCommon(re, b, a);
    } else {
      match b {
        case ConstNode(c) => ConstPrecise(re, c, a.value, path);
        case EnumNode(cs) => EnumPrecise(re, cs, a.values, path);
        case ArrayNode(items, _) =>
          LabelExact(re, items, a.items, path + "[]");
          ArrayPrecise(re, items, a.items, a.limits);
          NoLimitChanges(a.limits, a.limits, path);
          assert changes == SchemaChanges(re, items, a.items, path + "[]");
        case MapNode(additional) =>
          LabelExact(re, additional, a.additional, path + "[*]");
          MapPrecise(re, additional, a.additional);
        case ScalarNode(_, limits) => ScalarPrecise(re, b, a, path);
        case UnionNode(_, ms) =>
          var tagged := Tagged(ms, a.members);
          var bs, as_ := ByKey(ms, tagged), ByKey(a.members, tagged);
          forall k | k in bs && k in as_
            ensures Exact(re, bs[k], as_[k], path)
          {
            LabelExact(re, bs[k], as_[k], path);
          }
          UnionPrecise(re, b, a, path);
        case ObjectNode(ps) =>
          if ps != map[] {
            forall name | name in ps && name in a.properties
              ensures Exact(re, ps[name].schema, a.properties[name].schema, Child(path, name))
            {
              LabelExact(re, ps[name].schema, a.properties[name].schema, Child(path, name));
            }
            ObjectPrecise(re, b, a, path);
          }
      }
    }
  }

  lemma ConstPrecise(re: Regex, c: Scalar, d: Scalar, path: string)
    requires !Twins(c, d)
    ensures HasMajor(SchemaChanges(re, ConstNode(c), ConstNode(d), path)) <==> !Subsumes(re, ConstNode(c), ConstNode(d))
  {
    assert Valid(re, ConstNode(c), ToJson(c));
    assert !PyEq(c, d) ==> Change(path, MajorBump, ConstChanged) in SchemaChanges(re, ConstNode(c), ConstNode(d), path);
  }

  lemma ScalarPrecise(re: Regex, b: Node, a: Node, path: string)
    requires b.ScalarNode? && a.ScalarNode? && !PatternAdopted(re, b, a) && Precise(re, b, a)
    ensures HasMajor(SchemaChanges(re, b, a, path)) <==> !Subsumes(re, b, a)
  {
    if key: NumberKey :| b.typ == a.typ && BoundMoved(b.typ, key, b.limits, a.limits) {
      BoundPrecise(re, b, a, key, path);
    } else {
      NoLimitChanges(b.limits, a.limits, path);
      if b.typ != a.typ {
        assert Change(path, MajorBump, TypeChanged) in SchemaChanges(re, b, a, path);
        NothingInCommon(re, b, a);
      }
    }
  }

  lemma BoundPrecise(re: Regex, b: Node, a: Node, key: NumberKey, path: string)
    requires b.ScalarNode? && a.ScalarNode? && b.typ == a.typ && BoundMoved(b.typ, key, b.limits, a.limits)
    ensures Exact(re, b, a, path)
  {
    var was, now := Get(b.limits.numbers, key), Get(a.limits.numbers, key);
    SoleIsBound(key, b.limits);
    SoleIsBound(key, a.limits);
    if b.typ == NumberT {
      NumberBoundExact(re, key, was, now, path);
    } else if b.typ == IntegerT {
      IntegerBoundExact(re, key, was, now, path);
    } else {
      var m, n := Natural(was), Natural(now);
      assert Real(m) == was && Real(n) == now;
      LengthBoundExact(re, key, m, n, path);
    }
  }

  lemma SoleIsBound(key: NumberKey, limits: Limits)
    requires Sole(key, limits)
    ensures limits == Bound(key, Get(limits.numbers, key))
  {
    assert limits.numbers == Bound(key, Get(limits.numbers, key)).numbers;
  }

  function Natural(bound: Option<real>): Option<nat> {
    if bound.Some? && bound.value >= 0.0 then Some(bound.value.Floor) else None
  }

  // ---------------------------------------------------------------- one constraint

  function Bound(key: NumberKey, bound: Option<real>): Limits {
    Limits(if bound.Some? then map[key := bound.value] else map[], None)
  }

  lemma EveryLimitListed(limit: LimitKey)
    ensures limit in LIMIT_KEYS
  {
    var i := match limit
             case NumberLimit(Minimum) => 0
             case NumberLimit(ExclusiveMinimum) => 1
             case NumberLimit(Maximum) => 2
             case NumberLimit(ExclusiveMaximum) => 3
             case NumberLimit(MinLength) => 4
             case NumberLimit(MaxLength) => 5
             case PatternLimit => 6
             case NumberLimit(MinItems) => 7
             case NumberLimit(MaxItems) => 8
             case NumberLimit(MultipleOf) => 9;
    assert LIMIT_KEYS[i] == limit;
  }

  /** Limits that differ in one key change by that key alone. */
  lemma OneLimitChanges(key: NumberKey, before: Option<real>, after: Option<real>, path: string)
    ensures LimitChanges(Bound(key, before), Bound(key, after), path)
         == LimitChange(Bound(key, before), Bound(key, after), NumberLimit(key), path)
  {
    var b, a := Bound(key, before), Bound(key, after);
    EveryLimitListed(NumberLimit(key));
    forall limit | limit in LIMIT_KEYS && limit != NumberLimit(key)
      ensures LimitChange(b, a, limit, path) == {}
    {
    }
  }

  /** A bound that is new, or moved to the side the diff calls tightened. */
  predicate Tighter(key: NumberKey, before: Option<real>, after: Option<real>) {
    after.Some? && (before.None? || if key in TIGHTENS_WHEN_INCREASED then after.value > before.value
                                    else after.value < before.value)
  }

  lemma MajorMeansTighter(key: NumberKey, before: Option<real>, after: Option<real>, path: string)
    ensures HasMajor(LimitChanges(Bound(key, before), Bound(key, after), path)) <==> Tighter(key, before, after)
  {
    OneLimitChanges(key, before, after, path);
    var changes := LimitChange(Bound(key, before), Bound(key, after), NumberLimit(key), path);
    assert before.None? && after.Some? ==> Change(path, MajorBump, LimitAdded(NumberLimit(key))) in changes;
    assert before.Some? && after.Some? && Tighter(key, before, after) ==>
        Change(path, MajorBump, LimitTightened(NumberLimit(key))) in changes;
  }

  /** Bounds on a number: MAJOR if and only if some number is lost. */
  lemma NumberBoundExact(re: Regex, key: NumberKey, before: Option<real>, after: Option<real>, path: string)
    requires IsBound(key)
    ensures Exact(re, ScalarNode(NumberT, Bound(key, before)), ScalarNode(NumberT, Bound(key, after)), path)
  {
    var b, a := ScalarNode(NumberT, Bound(key, before)), ScalarNode(NumberT, Bound(key, after));
    MajorMeansTighter(key, before, after, path);
    assert SchemaChanges(re, b, a, path) == LimitChanges(b.limits, a.limits, path);
    if Tighter(key, before, after) {
      var x := if key == ExclusiveMinimum || key == ExclusiveMaximum then after.value
               else if before.Some? then before.value
               else if key == Minimum then after.value - 1.0
               else after.value + 1.0;
      assert Valid(re, b, JNum(x));
      assert !NumberHolds(key, a.limits.numbers[key], JNum(x));
      assert !Valid(re, a, JNum(x));
    } else {
      forall v | Valid(re, b, v)
        ensures Valid(re, a, v)
      {
        assert after.Some? ==> NumberHolds(key, b.limits.numbers[key], v);
      }
    }
  }

  /** The integer bound that admits the same integers. */
  function RoundedBound(key: NumberKey, bound: real): real {
    if key == Minimum || key == ExclusiveMaximum then -((-bound).Floor as real) else bound.Floor as real
  }

  function Rounded(key: NumberKey, bound: Option<real>): Option<real> {
    if bound.Some? then Some(RoundedBound(key, bound.value)) else None
  }

  lemma RoundedAdmitsTheSame(key: NumberKey, bound: real, v: Json)
    requires IsBound(key) && HasType(IntegerT, v)
    ensures NumberHolds(key, bound, v) <==> NumberHolds(key, RoundedBound(key, bound), v)
  {
    if v.JNum? {
      var n := v.n.Floor;
      assert v.n == n as real;
      AtMost(n, bound);
      AtMost(-n, -bound);
      assert (-n) as real == -(n as real);
      assert (-(-bound).Floor) as real == -((-bound).Floor as real);
      assert n >= -(-bound).Floor <==> n as real >= (-(-bound).Floor) as real;
    }
  }

  lemma AtMost(n: int, bound: real)
    ensures n as real <= bound <==> n <= bound.Floor
    ensures n <= bound.Floor <==> n as real <= bound.Floor as real
  {
  }

  lemma IntegerValid(re: Regex, key: NumberKey, bound: Option<real>, v: Json)
    ensures Valid(re, ScalarNode(IntegerT, Bound(key, bound)), v)
            <==> HasType(IntegerT, v) && (bound.Some? ==> NumberHolds(key, bound.value, v))
  {
    var limits := Bound(key, bound);
    assert bound.Some? ==> key in limits.numbers && limits.numbers[key] == bound.value;
  }

  /** Bounds on an integer, whatever their values: an integer is lost if and only if the bound,
      rounded to the integers, is tighter. */
  lemma IntegerBoundMeaning(re: Regex, key: NumberKey, before: Option<real>, after: Option<real>)
    requires IsBound(key)
    ensures Subsumes(re, ScalarNode(IntegerT, Bound(key, before)), ScalarNode(IntegerT, Bound(key, after)))
            <==> !Tighter(key, Rounded(key, before), Rounded(key, after))
  {
    var b, a := ScalarNode(IntegerT, Bound(key, before)), ScalarNode(IntegerT, Bound(key, after));
    var was, now := Rounded(key, before), Rounded(key, after);
    if Tighter(key, was, now) {
      var x := if key == ExclusiveMinimum || key == ExclusiveMaximum then now.value
               else if was.Some? then was.value
               else if key == Minimum then now.value - 1.0
               else now.value + 1.0;
      var v := JNum(x);
      WholeNumber(key, before, after, x);
      IntegerValid(re, key, before, v);
      IntegerValid(re, key, after, v);
      RoundedAdmitsTheSame(key, after.value, v);
      if before.Some? {
        RoundedAdmitsTheSame(key, before.value, v);
      }
      assert Valid(re, b, v) && !Valid(re, a, v);
    } else {
      forall v | Valid(re, b, v)
        ensures Valid(re, a, v)
      {
        IntegerValid(re, key, before, v);
        IntegerValid(re, key, after, v);
        if after.Some? {
          RoundedAdmitsTheSame(key, before.value, v);
          RoundedAdmitsTheSame(key, after.value, v);
        }
      }
    }
  }

  lemma WholeNumber(key: NumberKey, before: Option<real>, after: Option<real>, x: real)
    requires after.Some?
    requires var was, now := Rounded(key, before), Rounded(key, after);
             x == now.value || (was.Some? && x == was.value) || x == now.value - 1.0 || x == now.value + 1.0
    ensures HasType(IntegerT, JNum(x))
  {
    var f := if key == Minimum || key == ExclusiveMaximum then -((-after.value).Floor) else after.value.Floor;
    assert Rounded(key, after).value == f as real;
    assert f as real - 1.0 == (f - 1) as real && f as real + 1.0 == (f + 1) as real;
    if before.Some? {
      var g := if key == Minimum || key == ExclusiveMaximum then -((-before.value).Floor) else before.value.Floor;
      assert Rounded(key, before).value == g as real;
    }
  }

  /** So the label of a moved integer bound is exact if and only if the bound is no tighter, or
      is tighter when rounded too; from 0.5 to 1 it is a false alarm. */
  lemma IntegerBoundExact(re: Regex, key: NumberKey, before: Option<real>, after: Option<real>, path: string)
    requires IsBound(key)
    ensures Exact(re, ScalarNode(IntegerT, Bound(key, before)), ScalarNode(IntegerT, Bound(key, after)), path)
            <==> (Tighter(key, before, after) ==> Tighter(key, Rounded(key, before), Rounded(key, after)))
  {
    var b, a := ScalarNode(IntegerT, Bound(key, before)), ScalarNode(IntegerT, Bound(key, after));
    MajorMeansTighter(key, before, after, path);
    assert SchemaChanges(re, b, a, path) == LimitChanges(b.limits, a.limits, path);
    IntegerBoundMeaning(re, key, before, after);
    RoundingKeepsOrder(key, before, after);
  }

  lemma RoundingKeepsOrder(key: NumberKey, before: Option<real>, after: Option<real>)
    requires IsBound(key)
    ensures Tighter(key, Rounded(key, before), Rounded(key, after)) ==> Tighter(key, before, after)
  {
    if before.Some? && after.Some? {
      FloorMonotone(before.value, after.value);
      FloorMonotone(after.value, before.value);
      FloorMonotone(-before.value, -after.value);
      FloorMonotone(-after.value, -before.value);
    }
  }

  lemma FloorMonotone(x: real, y: real)
    ensures x <= y ==> x.Floor as real <= y.Floor as real
  {
    AtMost(x.Floor, x);
    AtMost(x.Floor, y);
  }

  /** Bounds on a string's length: the same, but for a new lower bound of zero, which is
      called MAJOR and loses nothing. */
  lemma LengthBoundExact(re: Regex, key: NumberKey, before: Option<nat>, after: Option<nat>, path: string)
    requires key == MinLength || key == MaxLength
    ensures var b, a := ScalarNode(StringT, Bound(key, Real(before))), ScalarNode(StringT, Bound(key, Real(after)));
            Exact(re, b, a, path) <==> !(key == MinLength && before == None && after == Some(0))
  {
    var b, a := ScalarNode(StringT, Bound(key, Real(before))), ScalarNode(StringT, Bound(key, Real(after)));
    MajorMeansTighter(key, Real(before), Real(after), path);
    assert !PatternAdopted(re, b, a);
    assert SchemaChanges(re, b, a, path) == LimitChanges(b.limits, a.limits, path);
    if key == MinLength && before == None && after == Some(0) {
      assert forall w | Valid(re, b, w) :: Valid(re, a, w);
    } else if Tighter(key, Real(before), Real(after)) {
      var n := if before.Some? then before.value else if key == MinLength then 0 else after.value + 1;
      var v := JStr(seq(n, _ => 'x'));
      assert Valid(re, b, v);
      assert !NumberHolds(key, a.limits.numbers[key], v);
      assert !Valid(re, a, v);
    } else {
      forall v | Valid(re, b, v)
        ensures Valid(re, a, v)
      {
        assert after.Some? ==> NumberHolds(key, b.limits.numbers[key], v);
      }
    }
  }

  function Real(bound: Option<nat>): Option<real> {
    if bound.Some? then Some(bound.value as real) else None
  }
}
