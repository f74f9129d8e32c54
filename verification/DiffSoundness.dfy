/**
 The label MINOR as a claim about meaning: when the diff reports no MAJOR change, every
 value the old schema accepted is still accepted. Reliable lists the branches where the
 diff's answer cannot be read that way; DiffExactness shows each of them fail.
 */
module DiffSoundness {
  import opened JsonValues
  import opened StructuralNodes
  import opened SchemaDiff

  // ---------------------------------------------------------------- oneOf members that exclude each other

  datatype Class = NullC | BoolC | NumC | StrC | ArrC | ObjC

  const ALL_CLASSES := {NullC, BoolC, NumC, StrC, ArrC, ObjC}

  function ClassOf(v: Json): Class {
    match v
    case JNull => NullC
    case JBool(_) => BoolC
    case JNum(_) => NumC
    case JStr(_) => StrC
    case JArr(_) => ArrC
    case JObj(_) => ObjC
  }

  /** The classes of value a node can accept, read off the node's surface. */
  function Classes(node: Node): set<Class> {
    match node
    case ConstNode(c) => {ClassOf(ToJson(c))}
    case EnumNode(cs) => set c | c in cs :: ClassOf(ToJson(c))
    case UnionNode(_, ms) => set m, c | m in ms && c in Classes(m) :: c
    case ArrayNode(_, _) => {ArrC}
    case ObjectNode(_) => {ObjC}
    case MapNode(_) => {ObjC}
    case ScalarNode(t, _) =>
      match t
      case AnyT => ALL_CLASSES
      case StringT => {StrC}
      case IntegerT => {NumC}
      case NumberT => {NumC}
      case BooleanT => {BoolC}
      case NullT => {NullC}
  }

  /** Told apart by a required const property of both, or by the class of value accepted. */
  predicate Exclusive(m: Node, n: Node) {
    || Classes(m) !! Classes(n)
    || (&& m.ObjectNode? && n.ObjectNode?
        && exists name | name in m.properties ::
             && name in n.properties
             && m.properties[name].required && n.properties[name].required
             && m.properties[name].schema.ConstNode? && n.properties[name].schema.ConstNode?
             && !SameJson(m.properties[name].schema.value, n.properties[name].schema.value))
  }

  predicate PairwiseExclusive(members: seq<Node>) {
    forall i, j | 0 <= i < j < |members| :: Exclusive(members[i], members[j])
  }

  lemma {:induction false} ValidClass(re: Regex, node: Node, v: Json)
    requires Valid(re, node, v)
    ensures ClassOf(v) in Classes(node)
  {
    if node.UnionNode? {
      var i :| 0 <= i < |node.members| && Valid(re, node.members[i], v);
      ValidClass(re, node.members[i], v);
    }
  }

  lemma ExclusiveMembersShareNoValue(re: Regex, m: Node, n: Node, v: Json)
    requires Exclusive(m, n) && Valid(re, m, v)
    ensures !Valid(re, n, v)
  {
    if Valid(re, n, v) {
      ValidClass(re, m, v);
      ValidClass(re, n, v);
    }
  }

  // ---------------------------------------------------------------- where the label can be trusted

  /** A value whose boolean or number twin is listed after must itself be listed after. */
  predicate TwinsKept(before: seq<Scalar>, after: seq<Scalar>) {
    forall x | x in before && (exists y | y in after :: Twins(x, y)) ::
      exists y | y in after :: SameJson(x, y)
  }

  /** A member that shares its key with a later one is never compared: it must be in the
      new union as it is. */
  predicate ShadowedKept(before: seq<Node>, after: seq<Node>) {
    var index := ByKey(before, Tagged(before, after));
    forall m | m in before :: index[KeyOf(m, Tagged(before, after))] == m || m in after
  }

  /** multipleOf never grows: the diff calls a larger one looser. */
  predicate MultipleOfKept(before: Limits, after: Limits) {
    MultipleOf in before.numbers && MultipleOf in after.numbers ==>
      after.numbers[MultipleOf] <= before.numbers[MultipleOf]
  }

  predicate Reliable(before: Node, after: Node) {
    KindOf(before) == KindOf(after) ==>
      match before
      case ConstNode(c) => !Twins(c, after.value)
      case EnumNode(cs) => TwinsKept(cs, after.values)
      case UnionNode(op, ms) =>
        var tagged := Tagged(ms, after.members);
        var bs, as_ := ByKey(ms, tagged), ByKey(after.members, tagged);
        && ShadowedKept(ms, after.members)
        && (op.OneOf? ==> PairwiseExclusive(after.members))
        && (forall k | k in bs && k in as_ :: Reliable(bs[k], as_[k]))
      case ArrayNode(items, limits) =>
        Reliable(items, after.items)
      case ObjectNode(ps) =>
        after.ObjectNode? ==>
          && (ps == map[] ==> after.properties == map[])
          && (forall name | name in ps && name in after.properties ::
                Reliable(ps[name].schema, after.properties[name].schema))
      case MapNode(additional) => after.MapNode? ==> Reliable(additional, after.additional)
      case ScalarNode(_, limits) => MultipleOfKept(limits, after.limits)
  }

  // ---------------------------------------------------------------- soundness, branch by branch

  lemma NoMajorIn(changes: set<Change>, part: set<Change>)
    requires !HasMajor(changes) && part <= changes
    ensures !HasMajor(part)
  {
  }

  lemma LimitsSound(re: Regex, before: Limits, after: Limits, path: string, v: Json)
    requires !HasMajor(LimitChanges(before, after, path))
    requires v.JArr? || MultipleOfKept(before, after)
    requires LimitsHold(re, before, v)
    ensures LimitsHold(re, after, v)
  {
    forall key | key in after.numbers
      ensures NumberHolds(key, after.numbers[key], v)
    {
      var limit := NumberLimit(key);
      assert limit in LIMIT_KEYS by {
        assert key.Minimum? ==> LIMIT_KEYS[0] == limit;
        assert key.ExclusiveMinimum? ==> LIMIT_KEYS[1] == limit;
        assert key.Maximum? ==> LIMIT_KEYS[2] == limit;
        assert key.ExclusiveMaximum? ==> LIMIT_KEYS[3] == limit;
        assert key.MinLength? ==> LIMIT_KEYS[4] == limit;
        assert key.MaxLength? ==> LIMIT_KEYS[5] == limit;
        assert key.MinItems? ==> LIMIT_KEYS[7] == limit;
        assert key.MaxItems? ==> LIMIT_KEYS[8] == limit;
        assert key.MultipleOf? ==> LIMIT_KEYS[9] == limit;
      }
      assert LimitChange(before, after, limit, path) <= LimitChanges(before, after, path);
      NoMajorIn(LimitChanges(before, after, path), LimitChange(before, after, limit, path));
      assert forall c :: c in LimitChange(before, after, limit, path) ==> c.bump != MajorBump;
      assert key !in before.numbers ==>
          Change(path, MajorBump, LimitAdded(limit)) in LimitChange(before, after, limit, path);
      assert NumberHolds(key, before.numbers[key], v);
      if before.numbers[key] != after.numbers[key] {
        assert Change(path, MajorBump, LimitTightened(limit)) !in LimitChange(before, after, limit, path);
      }
    }
    assert PatternLimit in LIMIT_KEYS by { assert LIMIT_KEYS[6] == PatternLimit; }
    assert LimitChange(before, after, PatternLimit, path) <= LimitChanges(before, after, path);
    NoMajorIn(LimitChanges(before, after, path), LimitChange(before, after, PatternLimit, path));
    if before.pattern != after.pattern && after.pattern.Some? {
      assert exists c :: c in LimitChange(before, after, PatternLimit, path) && c.bump == MajorBump;
    }
  }

  lemma EnumSound(before: seq<Scalar>, after: seq<Scalar>, path: string, c: Scalar)
    requires !HasMajor(EnumChanges(before, after, path)) && TwinsKept(before, after)
    requires c in before
    ensures exists d | d in after :: ToJson(c) == ToJson(d)
  {
    PyInPySet(c, before);
    assert PyIn(c, before) by { assert PyEq(c, c); }
    var e :| e in PySet(before) && PyEq(c, e);
    assert !PyIn(e, after) ==> Change(path, MajorBump, EnumValueRemoved(e)) in EnumChanges(before, after, path);
    var y :| y in after && PyEq(e, y);
    assert PyEq(c, y);
    if !SameJson(c, y) {
      assert Twins(c, y);
      var d :| d in after && SameJson(c, d);
    }
  }

  /** The whole claim, for every pair of nodes, every path and every value. */
  lemma {:induction false} DiffSound(re: Regex, before: Node, after: Node, path: string, v: Json)
    requires !HasMajor(SchemaChanges(re, before, after, path))
    requires Reliable(before, after)
    requires Published(re, v, path)
    requires Valid(re, before, v)
    ensures Valid(re, after, v)
    decreases before
  {
    var changes := SchemaChanges(re, before, after, path);
    if path == "contract_version" && PatternAdopted(re, before, after) {
    } else {
      assert KindOf(before) != KindOf(after) ==> Change(path, MajorBump, TypeChanged) in changes;
      match before {
        case ConstNode(c) =>
          assert !PyEq(c, after.value) ==> Change(path, MajorBump, ConstChanged) in changes;
        case EnumNode(cs) =>
          var c :| c in cs && v == ToJson(c);
          EnumSound(cs, after.values, path, c);
        case UnionNode(_, _) => UnionSound(re, before, after, path, v);
        case ArrayNode(items, limits) =>
          NoMajorIn(changes, LimitChanges(limits, after.limits, path));
          NoMajorIn(changes, SchemaChanges(re, items, after.items, path + "[]"));
          LimitsSound(re, limits, after.limits, path, v);
          forall x | x in v.items
            ensures Valid(re, after.items, x)
          {
            DiffSound(re, items, after.items, path + "[]", x);
          }
        case ObjectNode(_) =>
          assert after.MapNode? ==> Change(path, MajorBump, AdditionalShapeChanged) in changes;
          ObjectSound(re, before, after, path, v);
        case MapNode(additional) =>
          assert after.ObjectNode? ==> Change(path, MajorBump, AdditionalShapeChanged) in changes;
          forall name | name in v.fields
            ensures Valid(re, after.additional, v.fields[name])
          {
            DiffSound(re, additional, after.additional, path + "[*]", v.fields[name]);
          }
        case ScalarNode(typ, limits) =>
          assert typ != after.typ ==> Change(path, MajorBump, TypeChanged) in changes;
          NoMajorIn(changes, LimitChanges(limits, after.limits, path));
          LimitsSound(re, limits, after.limits, path, v);
      }
    }
  }

  lemma {:induction false} ObjectSound(re: Regex, before: Node, after: Node, path: string, v: Json)
    requires before.ObjectNode? && after.ObjectNode?
    requires !HasMajor(ObjectChanges(re, before, after, path))
    requires Reliable(before, after)
    requires Published(re, v, path)
    requires Valid(re, before, v)
    ensures Valid(re, after, v)
    decreases before, 0
  {
    var changes := ObjectChanges(re, before, after, path);
    var ps, qs := before.properties, after.properties;
    forall name | name in ps.Keys + qs.Keys
      ensures !HasMajor(FieldChange(re, before, after, name, path))
    {
      assert FieldChange(re, before, after, name, path) <= changes;
      NoMajorIn(changes, FieldChange(re, before, after, name, path));
    }
    forall name | name in ps
      ensures name in qs
    {
      var cs := FieldChange(re, before, after, name, path);
      assert name !in qs ==> Change(Child(path, name), MajorBump, FieldRemoved) in cs;
    }
    forall name | name in qs && qs[name].required
      ensures name in v.fields
    {
      var cs := FieldChange(re, before, after, name, path);
      assert name !in ps ==> Change(Child(path, name), MajorBump, FieldAdded(true)) in cs;
      assert name in ps && !ps[name].required ==> Change(Child(path, name), MajorBump, RequiredChanged(true)) in cs;
    }
    forall name | name in qs && name in v.fields
      ensures Valid(re, qs[name].schema, v.fields[name])
    {
      assert ps != map[];
      assert name in v.fields.Keys && name in ps;
      var child := Child(path, name);
      NoMajorIn(FieldChange(re, before, after, name, path),
                SchemaChanges(re, ps[name].schema, qs[name].schema, child));
      DiffSound(re, ps[name].schema, qs[name].schema, child, v.fields[name]);
    }
    if ps == map[] {
      assert qs == map[];
    } else {
      assert v.fields.Keys <= ps.Keys <= qs.Keys;
    }
  }

  /** A value of one old member is accepted by some new member. */
  lemma {:induction false} MemberSound(re: Regex, before: Node, after: Node, path: string, v: Json, m: Node)
    returns (j: nat)
    requires before.UnionNode? && after.UnionNode? && KindOf(before) == KindOf(after)
    requires !HasMajor(UnionChanges(re, before, after, path))
    requires Reliable(before, after)
    requires Published(re, v, path)
    requires m in before.members && Valid(re, m, v)
    ensures j < |after.members| && Valid(re, after.members[j], v)
    decreases before, 0
  {
    var tagged := Tagged(before.members, after.members);
    var bs, as_ := ByKey(before.members, tagged), ByKey(after.members, tagged);
    var key := KeyOf(m, tagged);
    if bs[key] == m {
      var changes := MemberChange(re, before, after, key, path);
      assert changes <= UnionChanges(re, before, after, path);
      NoMajorIn(UnionChanges(re, before, after, path), changes);
      assert key !in as_ ==> Change(path, MajorBump, MemberLost(key)) in changes;
      DiffSound(re, m, as_[key], path, v);
      j :| 0 <= j < |after.members| && after.members[j] == as_[key];
    } else {
      j :| 0 <= j < |after.members| && after.members[j] == m;
    }
  }

  lemma {:induction false} UnionSound(re: Regex, before: Node, after: Node, path: string, v: Json)
    requires before.UnionNode? && after.UnionNode? && KindOf(before) == KindOf(after)
    requires !HasMajor(UnionChanges(re, before, after, path))
    requires Reliable(before, after)
    requires Published(re, v, path)
    requires Valid(re, before, v)
    ensures Valid(re, after, v)
    decreases before, 1
  {
    var i :| 0 <= i < |before.members| && Valid(re, before.members[i], v);
    var j := MemberSound(re, before, after, path, v, before.members[i]);
    if after.op.OneOf? {
      var ms := after.members;
      forall k | 0 <= k < |ms| && k != j
        ensures !Valid(re, ms[k], v)
      {
        if Valid(re, ms[k], v) {
          if j < k {
            ExclusiveMembersShareNoValue(re, ms[j], ms[k], v);
          } else {
            ExclusiveMembersShareNoValue(re, ms[k], ms[j], v);
          }
        }
      }
    }
  }
}
