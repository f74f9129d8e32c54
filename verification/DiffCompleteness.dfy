/**
 An empty diff means the same shape: the tree that is hashed and the diff agree about
 whether anything changed, wherever no literal meets another that Python calls equal and a
 union member that shares its key with a later one is on both sides.
 */
module DiffCompleteness {
  import opened Common
  import opened JsonValues
  import opened StructuralNodes
  import opened SchemaDiff
  import opened DiffSoundness

  /** The tree with enum values as a set and union members as a set. */
  datatype Shape =
    | ConstShape(value: Scalar)
    | EnumShape(values: set<Scalar>)
    | UnionShape(op: UnionOp, members: set<Shape>)
    | ArrayShape(items: Shape, limits: Limits)
    | ObjectShape(required: map<string, bool>, schemas: map<string, Shape>)
    | MapShape(additional: Shape)
    | ScalarShape(typ: ScalarType, limits: Limits)

  function ShapeOf(node: Node): Shape {
    match node
    case ConstNode(c) => ConstShape(c)
    case EnumNode(cs) => EnumShape(Elements(cs))
    case UnionNode(op, ms) => UnionShape(op, set m | m in ms :: ShapeOf(m))
    case ArrayNode(items, limits) => ArrayShape(ShapeOf(items), limits)
    case ObjectNode(ps) =>
      ObjectShape(map name | name in ps :: ps[name].required, map name | name in ps :: ShapeOf(ps[name].schema))
    case MapNode(additional) => MapShape(ShapeOf(additional))
    case ScalarNode(t, limits) => ScalarShape(t, limits)
  }

  predicate SameShape(b: Node, a: Node) {
    ShapeOf(b) == ShapeOf(a)
  }

  // ---------------------------------------------------------------- the conditions

  /** What the diff does not compare has not changed: literals that Python finds equal are
      equal, and a union member that shares its key with a later one is on both sides. */
  predicate Discerned(b: Node, a: Node) {
    KindOf(b) == KindOf(a) ==>
      match b
      case ConstNode(c) => PyEq(c, a.value) ==> c == a.value
      case EnumNode(cs) => forall x, y | x in cs && y in a.values :: PyEq(x, y) ==> x == y
      case UnionNode(_, ms) =>
        var tagged := Tagged(ms, a.members);
        var bs, as_ := ByKey(ms, tagged), ByKey(a.members, tagged);
        && ShadowedKept(ms, a.members) && ShadowedKept(a.members, ms)
        && (forall k | k in bs && k in as_ :: Discerned(bs[k], as_[k]))
      case ArrayNode(items, _) => Discerned(items, a.items)
      case ObjectNode(ps) =>
        a.ObjectNode? ==> forall name | name in ps && name in a.properties ::
                            Discerned(ps[name].schema, a.properties[name].schema)
      case MapNode(additional) => a.MapNode? ==> Discerned(additional, a.additional)
      case ScalarNode(_, _) => true
  }

  /** No two members of one key stand in one order here and in the other there. */
  predicate NoCrossing(ms: seq<Node>, ns: seq<Node>) {
    forall i, j, p, q | 0 <= i < j < |ms| && 0 <= p < q < |ns| && SameShape(ms[i], ns[q]) && SameShape(ms[j], ns[p]) ::
      KeyOf(ms[i], Tagged(ms, ns)) == KeyOf(ms[j], Tagged(ms, ns)) ==> SameShape(ms[i], ms[j])
  }

  /** Members that share a key come in one order on both sides, as sorting leaves them. */
  predicate InOrder(b: Node, a: Node) {
    KindOf(b) == KindOf(a) ==>
      match b
      case UnionNode(_, ms) =>
        var tagged := Tagged(ms, a.members);
        var bs, as_ := ByKey(ms, tagged), ByKey(a.members, tagged);
        NoCrossing(ms, a.members) && (forall k | k in bs && k in as_ :: InOrder(bs[k], as_[k]))
      case ArrayNode(items, _) => InOrder(items, a.items)
      case ObjectNode(ps) =>
        a.ObjectNode? ==> forall name | name in ps && name in a.properties ::
                            InOrder(ps[name].schema, a.properties[name].schema)
      case MapNode(additional) => a.MapNode? ==> InOrder(additional, a.additional)
      case _ => true
  }

  /** Members of one union told apart by their own keys. */
  predicate DistinctKeys(members: seq<Node>) {
    var tagged := ObjectCount(members) > 1;
    forall i, j | 0 <= i < j < |members| :: KeyOf(members[i], tagged) != KeyOf(members[j], tagged)
  }

  // ---------------------------------------------------------------- keys

  lemma {:induction false} DistinctIndex(members: seq<Node>, tagged: bool)
    requires forall i, j | 0 <= i < j < |members| :: KeyOf(members[i], tagged) != KeyOf(members[j], tagged)
    ensures forall m | m in members :: ByKey(members, tagged)[KeyOf(m, tagged)] == m
  {
    if members != [] {
      var front, last := members[..|members| - 1], members[|members| - 1];
      DistinctIndex(front, tagged);
      forall m | m in members
        ensures ByKey(members, tagged)[KeyOf(m, tagged)] == m
      {
        if m != last {
          var i :| 0 <= i < |members| && members[i] == m;
          assert front[i] == m && m in front;
        }
      }
    }
  }

  /** Unions whose members have keys of their own meet both conditions by themselves. */
  lemma DistinctKeysSuffice(ms: seq<Node>, ns: seq<Node>)
    requires DistinctKeys(ms) && DistinctKeys(ns)
    ensures ShadowedKept(ms, ns) && ShadowedKept(ns, ms) && NoCrossing(ms, ns)
  {
    DistinctIndex(ms, Tagged(ms, ns));
    DistinctIndex(ns, Tagged(ns, ms));
  }

  lemma ObjectFields(b: Node, a: Node)
    requires b.ObjectNode? && a.ObjectNode?
    ensures SameShape(b, a) <==>
            && b.properties.Keys == a.properties.Keys
            && forall name | name in b.properties ::
                 && b.properties[name].required == a.properties[name].required
                 && SameShape(b.properties[name].schema, a.properties[name].schema)
  {
    var sb, sa := ShapeOf(b), ShapeOf(a);
    assert sb.required.Keys == b.properties.Keys && sa.required.Keys == a.properties.Keys;
    assert sb.schemas.Keys == b.properties.Keys && sa.schemas.Keys == a.properties.Keys;
    if SameShape(b, a) {
      forall name | name in b.properties
        ensures b.properties[name].required == a.properties[name].required
        ensures SameShape(b.properties[name].schema, a.properties[name].schema)
      {
        assert sb.required[name] == sa.required[name] && sb.schemas[name] == sa.schemas[name];
      }
    } else if b.properties.Keys == a.properties.Keys {
      assert sb.required != sa.required || sb.schemas != sa.schemas;
    }
  }

  lemma SameShapeSameKey(m: Node, n: Node, tagged: bool)
    requires SameShape(m, n)
    ensures KeyOf(m, tagged) == KeyOf(n, tagged)
  {
    if m.ObjectNode? {
      ObjectFields(m, n);
      forall name | name in m.properties
        ensures m.properties[name].schema.ConstNode? <==> n.properties[name].schema.ConstNode?
      {
        assert ShapeOf(m.properties[name].schema) == ShapeOf(n.properties[name].schema);
      }
      forall t
        ensures t in Tags(m) <==> t in Tags(n)
      {
      }
    }
  }

  // ---------------------------------------------------------------- the equivalence

  lemma NoLimitChanges(before: Limits, after: Limits, path: string)
    ensures LimitChanges(before, after, path) == {} <==> before == after
  {
    if LimitChanges(before, after, path) == {} {
      forall key: NumberKey
        ensures Get(before.numbers, key) == Get(after.numbers, key)
      {
        var at := match key
          case Minimum => 0 case ExclusiveMinimum => 1 case Maximum => 2 case ExclusiveMaximum => 3
          case MinLength => 4 case MaxLength => 5 case MinItems => 7 case MaxItems => 8 case MultipleOf => 9;
        assert LIMIT_KEYS[at] == NumberLimit(key);
        assert LimitChange(before, after, NumberLimit(key), path) <= LimitChanges(before, after, path);
      }
      assert LIMIT_KEYS[6] == PatternLimit;
      assert LimitChange(before, after, PatternLimit, path) <= LimitChanges(before, after, path);
      forall key: NumberKey
        ensures key in before.numbers <==> key in after.numbers
        ensures key in before.numbers ==> before.numbers[key] == after.numbers[key]
      {
        assert Get(before.numbers, key) == Get(after.numbers, key);
      }
      assert before.numbers == after.numbers;
    }
  }

  lemma NoEnumChanges(before: seq<Scalar>, after: seq<Scalar>, path: string)
    requires forall x, y | x in before && y in after :: PyEq(x, y) ==> x == y
    ensures EnumChanges(before, after, path) == {} <==> Elements(before) == Elements(after)
  {
    var changes := EnumChanges(before, after, path);
    if changes == {} {
      forall x | x in before
        ensures x in after
      {
        PyInPySet(x, before);
        assert PyEq(x, x);
        var e :| e in PySet(before) && PyEq(x, e);
        PyInPySet(e, before);
        assert !PyIn(e, after) ==> Change(path, MajorBump, EnumValueRemoved(e)) in changes;
        var y :| y in after && PyEq(e, y);
        assert PyEq(x, y);
      }
      forall y | y in after
        ensures y in before
      {
        PyInPySet(y, after);
        assert PyEq(y, y);
        var e :| e in PySet(after) && PyEq(y, e);
        PyInPySet(e, after);
        assert !PyIn(e, before) ==> Change(path, MinorBump, EnumValueAdded(e)) in changes;
        var x :| x in before && PyEq(e, x);
        assert PyEq(x, y);
      }
    }
    if Elements(before) == Elements(after) {
      SameValuesNoChanges(before, after, path);
    }
  }

  lemma SameValuesNoChanges(before: seq<Scalar>, after: seq<Scalar>, path: string)
    requires Elements(before) == Elements(after)
    ensures EnumChanges(before, after, path) == {}
  {
    forall x | x in PySet(after)
      ensures PyIn(x, before)
    {
      PyInPySet(x, after);
      assert x in Elements(before) && PyEq(x, x);
    }
    forall x | x in PySet(before)
      ensures PyIn(x, after)
    {
      PyInPySet(x, before);
      assert x in Elements(after) && PyEq(x, x);
    }
  }

  /** An empty diff means one shape. */
  lemma {:induction false} EmptyMeansSameShape(re: Regex, b: Node, a: Node, path: string)
    requires Discerned(b, a) && SchemaChanges(re, b, a, path) == {}
    ensures SameShape(b, a)
    decreases b
  {
    assert !PatternAdopted(re, b, a) || path != "contract_version";
    match b {
      case ConstNode(_) =>
      case EnumNode(cs) => NoEnumChanges(cs, a.values, path);
      case UnionNode(_, _) => UnionEmptyMeansSameShape(re, b, a, path);
      case ArrayNode(items, limits) =>
        NoLimitChanges(limits, a.limits, path);
        EmptyMeansSameShape(re, items, a.items, path + "[]");
      case ObjectNode(ps) =>
        assert a.ObjectNode?;
        forall name | name in ps.Keys + a.properties.Keys
          ensures FieldChange(re, b, a, name, path) == {}
          ensures name in ps && name in a.properties && ps[name].required == a.properties[name].required
          ensures SameShape(ps[name].schema, a.properties[name].schema)
        {
          FieldReported(re, b, a, name, path);
          EmptyMeansSameShape(re, ps[name].schema, a.properties[name].schema, Child(path, name));
        }
        assert ps.Keys == a.properties.Keys;
        ObjectFields(b, a);
      case MapNode(additional) =>
        assert a.MapNode?;
        EmptyMeansSameShape(re, additional, a.additional, path + "[*]");
      case ScalarNode(typ, limits) =>
        NoLimitChanges(limits, a.limits, path);
        assert typ != a.typ ==> Change(path, MajorBump, TypeChanged) in SchemaChanges(re, b, a, path);
    }
  }

  lemma {:induction false} UnionEmptyMeansSameShape(re: Regex, b: Node, a: Node, path: string)
    requires b.UnionNode? && a.UnionNode? && b.op == a.op
    requires Discerned(b, a) && UnionChanges(re, b, a, path) == {}
    ensures SameShape(b, a)
    decreases b, 0
  {
    var tagged := Tagged(b.members, a.members);
    var bs, as_ := ByKey(b.members, tagged), ByKey(a.members, tagged);
    NoMemberChanges(re, b, a, path);
    forall k | k in bs
      ensures k in as_ && SameShape(bs[k], as_[k])
    {
      assert k in as_.Keys && MemberChange(re, b, a, k, path) == {};
      EmptyMeansSameShape(re, bs[k], as_[k], path);
    }
    MembersMeet(b.members, a.members, bs, as_, tagged);
    assert as_.Keys == bs.Keys;
    MembersMeet(a.members, b.members, as_, bs, tagged);
    SameMembersSameShape(b, a);
  }

  lemma SameMembersSameShape(b: Node, a: Node)
    requires b.UnionNode? && a.UnionNode? && b.op == a.op
    requires forall m | m in b.members :: exists n | n in a.members :: SameShape(m, n)
    requires forall n | n in a.members :: exists m | m in b.members :: SameShape(n, m)
    ensures SameShape(b, a)
  {
    ShapesWithin(b, a);
    ShapesWithin(a, b);
    assert ShapeOf(b).members == ShapeOf(a).members;
  }

  lemma ShapesWithin(b: Node, a: Node)
    requires b.UnionNode? && a.UnionNode?
    requires forall m | m in b.members :: exists n | n in a.members :: SameShape(m, n)
    ensures ShapeOf(b).members <= ShapeOf(a).members
  {
    forall x | x in ShapeOf(b).members
      ensures x in ShapeOf(a).members
    {
      var m :| m in b.members && x == ShapeOf(m);
      var n :| n in a.members && SameShape(m, n);
    }
  }

  /** Every member has its shape on the other side: behind its key, or as it is. */
  lemma MembersMeet(ms: seq<Node>, ns: seq<Node>, bs: map<MemberKey, Node>, as_: map<MemberKey, Node>, tagged: bool)
    requires tagged == Tagged(ms, ns) && bs == ByKey(ms, tagged) && as_ == ByKey(ns, tagged)
    requires ShadowedKept(ms, ns) && forall k | k in bs :: k in as_ && SameShape(bs[k], as_[k])
    ensures forall m | m in ms :: exists n | n in ns :: SameShape(m, n)
  {
    forall m | m in ms
      ensures exists n | n in ns :: SameShape(m, n)
    {
      var k := KeyOf(m, tagged);
      assert k in bs && as_[k] in ns;
      assert bs[k] == m || (m in ns && SameShape(m, m));
    }
  }

  predicate HasShape(m: Node, ns: seq<Node>) {
    exists n | n in ns :: SameShape(m, n)
  }

  /** What the diff does not look at survived by shape: literals, and each union member that
      is not one of a compared pair. */
  predicate Survives(b: Node, a: Node) {
    KindOf(b) == KindOf(a)
    && match b
       case ConstNode(c) => c == a.value
       case EnumNode(cs) => Elements(cs) == Elements(a.values)
       case UnionNode(_, ms) =>
         var tagged := Tagged(ms, a.members);
         var bs, as_ := ByKey(ms, tagged), ByKey(a.members, tagged);
         && (forall m | m in ms :: HasShape(m, a.members) ||
               (var k := KeyOf(m, tagged); bs[k] == m && k in as_ && Survives(m, as_[k])))
         && (forall n | n in a.members :: HasShape(n, ms) ||
               (var k := KeyOf(n, tagged); as_[k] == n && k in bs && Survives(bs[k], n)))
       case ArrayNode(items, _) => Survives(items, a.items)
       case ObjectNode(ps) =>
         a.ObjectNode? ==> forall name | name in ps && name in a.properties ::
                             Survives(ps[name].schema, a.properties[name].schema)
       case MapNode(additional) => a.MapNode? ==> Survives(additional, a.additional)
       case ScalarNode(_, _) => true
  }

  lemma {:induction false} SameShapeSurvives(b: Node, a: Node)
    requires SameShape(b, a)
    ensures Survives(b, a)
    decreases b
  {
    match b {
      case ConstNode(_) =>
      case EnumNode(_) =>
      case UnionNode(_, ms) =>
        forall m | m in ms
          ensures HasShape(m, a.members)
        {
          assert ShapeOf(m) in ShapeOf(a).members;
        }
        forall n | n in a.members
          ensures HasShape(n, ms)
        {
          assert ShapeOf(n) in ShapeOf(b).members;
        }
      case ArrayNode(items, _) => SameShapeSurvives(items, a.items);
      case ObjectNode(ps) =>
        ObjectFields(b, a);
        forall name | name in ps
          ensures Survives(ps[name].schema, a.properties[name].schema)
        {
          SameShapeSurvives(ps[name].schema, a.properties[name].schema);
        }
      case MapNode(additional) => SameShapeSurvives(additional, a.additional);
      case ScalarNode(_, _) =>
    }
  }

  lemma {:induction false} SurvivorsSameShape(re: Regex, b: Node, a: Node, path: string)
    requires SchemaChanges(re, b, a, path) == {} && Survives(b, a)
    ensures SameShape(b, a)
    decreases b
  {
    assert !PatternAdopted(re, b, a) || path != "contract_version";
    match b {
      case ConstNode(_) =>
      case EnumNode(_) =>
      case UnionNode(_, _) => SurvivingUnionSameShape(re, b, a, path);
      case ArrayNode(items, limits) =>
        NoLimitChanges(limits, a.limits, path);
        SurvivorsSameShape(re, items, a.items, path + "[]");
      case ObjectNode(ps) =>
        assert a.ObjectNode?;
        forall name | name in ps.Keys + a.properties.Keys
          ensures name in ps && name in a.properties && ps[name].required == a.properties[name].required
          ensures SameShape(ps[name].schema, a.properties[name].schema)
        {
          FieldReported(re, b, a, name, path);
          assert FieldChange(re, b, a, name, path) == {};
          SurvivorsSameShape(re, ps[name].schema, a.properties[name].schema, Child(path, name));
        }
        assert ps.Keys == a.properties.Keys;
        ObjectFields(b, a);
      case MapNode(additional) =>
        assert a.MapNode?;
        SurvivorsSameShape(re, additional, a.additional, path + "[*]");
      case ScalarNode(typ, limits) =>
        NoLimitChanges(limits, a.limits, path);
        assert typ != a.typ ==> Change(path, MajorBump, TypeChanged) in SchemaChanges(re, b, a, path);
    }
  }

  lemma {:induction false} MeetsBehindKey(
      m: Node, ms: seq<Node>, ns: seq<Node>, bs: map<MemberKey, Node>, as_: map<MemberKey, Node>, tagged: bool)
    requires bs == ByKey(ms, tagged) && as_ == ByKey(ns, tagged)
    requires forall k :: k in bs && k in as_ && Survives(bs[k], as_[k]) ==> SameShape(bs[k], as_[k])
    requires HasShape(m, ns)
             || (var k := KeyOf(m, tagged); k in bs && bs[k] == m && k in as_ && Survives(m, as_[k]))
    ensures HasShape(m, ns)
  {
    var k := KeyOf(m, tagged);
    assert k in as_ ==> as_[k] in ns;
  }

  lemma {:induction false} MetBehindKey(
      n: Node, ms: seq<Node>, ns: seq<Node>, bs: map<MemberKey, Node>, as_: map<MemberKey, Node>, tagged: bool)
    requires bs == ByKey(ms, tagged) && as_ == ByKey(ns, tagged)
    requires forall k :: k in as_ && k in bs && Survives(bs[k], as_[k]) ==> SameShape(as_[k], bs[k])
    requires HasShape(n, ms)
             || (var k := KeyOf(n, tagged); k in as_ && as_[k] == n && k in bs && Survives(bs[k], n))
    ensures HasShape(n, ms)
  {
    var k := KeyOf(n, tagged);
    assert k in bs ==> bs[k] in ms;
  }

  lemma {:induction false} SurvivingUnionSameShape(re: Regex, b: Node, a: Node, path: string)
    requires b.UnionNode? && a.UnionNode? && b.op == a.op
    requires UnionChanges(re, b, a, path) == {} && Survives(b, a)
    ensures SameShape(b, a)
    decreases b, 0
  {
    var tagged := Tagged(b.members, a.members);
    var bs, as_ := ByKey(b.members, tagged), ByKey(a.members, tagged);
    NoMemberChanges(re, b, a, path);
    forall k | k in bs && k in as_ && Survives(bs[k], as_[k])
      ensures SameShape(bs[k], as_[k])
    {
      assert MemberChange(re, b, a, k, path) == {};
      SurvivorsSameShape(re, bs[k], as_[k], path);
    }
    forall m | m in b.members
      ensures HasShape(m, a.members)
    {
      MeetsBehindKey(m, b.members, a.members, bs, as_, tagged);
    }
    forall n | n in a.members
      ensures HasShape(n, b.members)
    {
      assert forall k :: k in as_ && k in bs && Survives(bs[k], as_[k]) ==> SameShape(as_[k], bs[k]);
      MetBehindKey(n, b.members, a.members, bs, as_, tagged);
    }
    SameMembersSameShape(b, a);
  }

  /** Given an empty diff, the shapes agree exactly when what it does not look at survived. */
  lemma EmptyDiffExact(re: Regex, b: Node, a: Node, path: string)
    requires SchemaChanges(re, b, a, path) == {}
    ensures SameShape(b, a) <==> Survives(b, a)
  {
    if Survives(b, a) {
      SurvivorsSameShape(re, b, a, path);
    }
    if SameShape(b, a) {
      SameShapeSurvives(b, a);
    }
  }

  /** And one shape means an empty diff, where shared keys name the members in one order. */
  lemma {:induction false} SameShapeMeansEmpty(re: Regex, b: Node, a: Node, path: string)
    requires InOrder(b, a) && SameShape(b, a)
    ensures SchemaChanges(re, b, a, path) == {}
    decreases b
  {
    match b {
      case ConstNode(_) =>
      case EnumNode(cs) => SameValuesNoChanges(cs, a.values, path);
      case UnionNode(_, _) => SameShapeUnionEmpty(re, b, a, path);
      case ArrayNode(items, limits) =>
        NoLimitChanges(limits, a.limits, path);
        SameShapeMeansEmpty(re, items, a.items, path + "[]");
      case ObjectNode(ps) =>
        ObjectFields(b, a);
        forall name | name in ps.Keys + a.properties.Keys
          ensures FieldChange(re, b, a, name, path) == {}
        {
          SameShapeMeansEmpty(re, ps[name].schema, a.properties[name].schema, Child(path, name));
        }
        assert SchemaChanges(re, b, a, path) == FieldChangesOver(re, b, a, ps.Keys + a.properties.Keys, path);
      case MapNode(additional) => SameShapeMeansEmpty(re, additional, a.additional, path + "[*]");
      case ScalarNode(_, limits) => NoLimitChanges(limits, a.limits, path);
    }
  }

  lemma {:induction false} SameShapeUnionEmpty(re: Regex, b: Node, a: Node, path: string)
    requires b.UnionNode? && a.UnionNode? && b.op == a.op && InOrder(b, a) && SameShape(b, a)
    ensures UnionChanges(re, b, a, path) == {}
    decreases b, 0
  {
    var tagged := Tagged(b.members, a.members);
    var bs, as_ := ByKey(b.members, tagged), ByKey(a.members, tagged);
    forall k | k in bs.Keys + as_.Keys
      ensures MemberChange(re, b, a, k, path) == {}
    {
      KeyNamesPartners(b, a, k);
      SameShapeMeansEmpty(re, bs[k], as_[k], path);
    }
    NoMemberChanges(re, b, a, path);
  }

  /** A tree against itself: no change, whatever its unions. */
  lemma {:induction false} SelfDiff(re: Regex, node: Node, path: string)
    ensures SchemaChanges(re, node, node, path) == {}
    decreases node
  {
    match node {
      case ConstNode(_) =>
      case EnumNode(cs) => SameValuesNoChanges(cs, cs, path);
      case UnionNode(_, ms) =>
        var tagged := Tagged(ms, ms);
        var index := ByKey(ms, tagged);
        forall k | k in index.Keys + index.Keys
          ensures MemberChange(re, node, node, k, path) == {}
        {
          SelfDiff(re, index[k], path);
        }
        NoMemberChanges(re, node, node, path);
      case ArrayNode(items, limits) =>
        NoLimitChanges(limits, limits, path);
        SelfDiff(re, items, path + "[]");
      case ObjectNode(ps) =>
        forall name | name in ps
          ensures FieldChange(re, node, node, name, path) == {}
        {
          SelfDiff(re, ps[name].schema, Child(path, name));
        }
        assert SchemaChanges(re, node, node, path) == FieldChangesOver(re, node, node, ps.Keys + ps.Keys, path);
      case MapNode(additional) => SelfDiff(re, additional, path + "[*]");
      case ScalarNode(_, limits) => NoLimitChanges(limits, limits, path);
    }
  }

  /** The diff is empty exactly for trees of the same shape. */
  lemma DiffEmptyIffSameShape(re: Regex, b: Node, a: Node, path: string)
    requires Discerned(b, a) && InOrder(b, a)
    ensures SchemaChanges(re, b, a, path) == {} <==> SameShape(b, a)
  {
    if SameShape(b, a) {
      SameShapeMeansEmpty(re, b, a, path);
    } else if SchemaChanges(re, b, a, path) == {} {
      EmptyMeansSameShape(re, b, a, path);
    }
  }

  /** Index of a member on the other side with this one's shape. */
  lemma Partner(b: Node, a: Node, i: nat) returns (j: nat)
    requires b.UnionNode? && SameShape(b, a) && i < |b.members|
    ensures j < |a.members| && SameShape(b.members[i], a.members[j])
  {
    assert ShapeOf(b.members[i]) in ShapeOf(a).members;
    j :| 0 <= j < |a.members| && SameShape(b.members[i], a.members[j]);
  }

  lemma CoPartner(b: Node, a: Node, j: nat) returns (i: nat)
    requires b.UnionNode? && SameShape(b, a) && j < |a.members|
    ensures i < |b.members| && SameShape(b.members[i], a.members[j])
  {
    assert ShapeOf(a.members[j]) in ShapeOf(b).members;
    i :| 0 <= i < |b.members| && SameShape(b.members[i], a.members[j]);
  }

  /** In unions of one shape, a key names members of one shape on both sides. */
  lemma KeyNamesPartners(b: Node, a: Node, k: MemberKey)
    requires b.UnionNode? && a.UnionNode? && SameShape(b, a) && NoCrossing(b.members, a.members)
    requires var tagged := Tagged(b.members, a.members);
             k in ByKey(b.members, tagged).Keys + ByKey(a.members, tagged).Keys
    ensures var tagged := Tagged(b.members, a.members);
            var bs, as_ := ByKey(b.members, tagged), ByKey(a.members, tagged);
            k in bs && k in as_ && SameShape(bs[k], as_[k])
  {
    var tagged := Tagged(b.members, a.members);
    var bs, as_ := ByKey(b.members, tagged), ByKey(a.members, tagged);
    if k in bs {
      SharedKey(b, a, k, tagged);
    } else {
      SharedKey(a, b, k, tagged);
    }
    var i := LastOfKey(b.members, tagged, k);
    var q := LastOfKey(a.members, tagged, k);
    var p := Partner(b, a, i);
    var j := CoPartner(b, a, q);
    SameShapeSameKey(b.members[i], a.members[p], tagged);
    SameShapeSameKey(b.members[j], a.members[q], tagged);
    assert p <= q && j <= i;
    assert p == q || j == i || SameShape(b.members[j], b.members[i]);
  }

  lemma SharedKey(b: Node, a: Node, k: MemberKey, tagged: bool)
    requires b.UnionNode? && a.UnionNode? && SameShape(b, a)
    requires k in ByKey(b.members, tagged)
    ensures k in ByKey(a.members, tagged)
  {
    var i :| 0 <= i < |b.members| && b.members[i] == ByKey(b.members, tagged)[k];
    var j := Partner(b, a, i);
    SameShapeSameKey(b.members[i], a.members[j], tagged);
    assert a.members[j] in a.members;
  }

  /** The member a key names is the last that has it. */
  lemma LastOfKey(ms: seq<Node>, tagged: bool, k: MemberKey) returns (i: nat)
    requires k in ByKey(ms, tagged)
    ensures i < |ms| && ByKey(ms, tagged)[k] == ms[i] && KeyOf(ms[i], tagged) == k
    ensures forall j | i < j < |ms| :: KeyOf(ms[j], tagged) != k
  {
    var some :| 0 <= some < |ms| && ms[some] == ByKey(ms, tagged)[k];
    i := LastWith(ms, tagged, k, |ms|, some);
    KeptLast(ms, tagged, k, i, |ms|);
    assert ms[..|ms|] == ms;
  }

  lemma {:induction false} LastWith(ms: seq<Node>, tagged: bool, k: MemberKey, n: nat, some: nat) returns (i: nat)
    requires some < n <= |ms| && KeyOf(ms[some], tagged) == k
    ensures i < n && KeyOf(ms[i], tagged) == k && forall j | i < j < n :: KeyOf(ms[j], tagged) != k
    decreases n
  {
    if KeyOf(ms[n - 1], tagged) == k {
      i := n - 1;
    } else {
      i := LastWith(ms, tagged, k, n - 1, some);
    }
  }

  lemma ByKeyStep(ms: seq<Node>, tagged: bool, n: nat)
    requires 0 < n <= |ms|
    ensures ByKey(ms[..n], tagged) == ByKey(ms[..n - 1], tagged)[KeyOf(ms[n - 1], tagged) := ms[n - 1]]
  {
    assert ms[..n][..n - 1] == ms[..n - 1];
  }

  lemma {:induction false} KeptLast(ms: seq<Node>, tagged: bool, k: MemberKey, i: nat, n: nat)
    requires i < n <= |ms| && KeyOf(ms[i], tagged) == k && forall j | i < j < n :: KeyOf(ms[j], tagged) != k
    ensures k in ByKey(ms[..n], tagged) && ByKey(ms[..n], tagged)[k] == ms[i]
    decreases n
  {
    hide ByKey, KeyOf;
    ByKeyStep(ms, tagged, n);
    if i < n - 1 {
      KeptLast(ms, tagged, k, i, n - 1);
    }
  }

  lemma NoMemberChanges(re: Regex, b: Node, a: Node, path: string)
    requires b.UnionNode? && a.UnionNode?
    ensures var tagged := Tagged(b.members, a.members);
            var bs, as_ := ByKey(b.members, tagged), ByKey(a.members, tagged);
            && (UnionChanges(re, b, a, path) == {}
                <==> forall k | k in bs.Keys + as_.Keys :: MemberChange(re, b, a, k, path) == {})
            && (UnionChanges(re, b, a, path) == {} ==> bs.Keys == as_.Keys)
  {
    var tagged := Tagged(b.members, a.members);
    var bs, as_ := ByKey(b.members, tagged), ByKey(a.members, tagged);
    var keys := bs.Keys + as_.Keys;
    assert UnionChanges(re, b, a, path) == MemberChangesOver(re, b, a, keys, path);
    NoChangesOver(re, b, a, keys, path);
    assert forall k | k in keys :: k !in bs || k !in as_ ==> MemberChange(re, b, a, k, path) != {};
  }

  lemma NoChangesOver(re: Regex, b: Node, a: Node, keys: set<MemberKey>, path: string)
    requires b.UnionNode? && a.UnionNode?
    ensures MemberChangesOver(re, b, a, keys, path) == {}
            <==> forall k | k in keys :: MemberChange(re, b, a, k, path) == {}
  {
    forall k | k in keys
      ensures MemberChange(re, b, a, k, path) <= MemberChangesOver(re, b, a, keys, path)
    {
    }
  }

  // ---------------------------------------------------------------- and the same meaning

  /** No oneOf lists a shape twice: a value of it would match two members. */
  predicate OnceEach(node: Node) {
    match node
    case UnionNode(op, ms) =>
      && (op.OneOf? ==> forall i, j | 0 <= i < j < |ms| :: !SameShape(ms[i], ms[j]))
      && forall m | m in ms :: OnceEach(m)
    case ArrayNode(items, _) => OnceEach(items)
    case ObjectNode(ps) => forall name | name in ps :: OnceEach(ps[name].schema)
    case MapNode(additional) => OnceEach(additional)
    case _ => true
  }

  /** Trees of one shape accept the same values. */
  lemma {:induction false} SameShapeSameMeaning(re: Regex, b: Node, a: Node, v: Json)
    requires SameShape(b, a) && OnceEach(b) && OnceEach(a)
    ensures Valid(re, b, v) <==> Valid(re, a, v)
    decreases b
  {
    match b {
      case ConstNode(_) =>
      case EnumNode(cs) => EnumSameMeaning(re, cs, a.values, v);
      case UnionNode(_, _) => UnionSameMeaning(re, b, a, v);
      case ArrayNode(items, _) =>
        if v.JArr? {
          forall x | x in v.items { SameShapeSameMeaning(re, items, a.items, x); }
        }
      case ObjectNode(ps) =>
        ObjectFields(b, a);
        if v.JObj? {
          forall name | name in ps && name in v.fields
            ensures Valid(re, ps[name].schema, v.fields[name])
                    <==> Valid(re, a.properties[name].schema, v.fields[name])
          {
            SameShapeSameMeaning(re, ps[name].schema, a.properties[name].schema, v.fields[name]);
          }
          assert ps == map[] <==> ps.Keys == {};
          assert a.properties == map[] <==> a.properties.Keys == {};
        }
      case MapNode(additional) =>
        if v.JObj? {
          forall name | name in v.fields { SameShapeSameMeaning(re, additional, a.additional, v.fields[name]); }
        }
      case ScalarNode(_, _) =>
    }
  }

  lemma EnumSameMeaning(re: Regex, cs: seq<Scalar>, ds: seq<Scalar>, v: Json)
    requires Elements(cs) == Elements(ds)
    ensures Valid(re, EnumNode(cs), v) <==> Valid(re, EnumNode(ds), v)
  {
    assert forall c :: c in cs <==> c in Elements(cs);
    assert forall c :: c in ds <==> c in Elements(ds);
  }

  lemma {:induction false} UnionSameMeaning(re: Regex, b: Node, a: Node, v: Json)
    requires b.UnionNode? && SameShape(b, a) && OnceEach(b) && OnceEach(a)
    ensures Valid(re, b, v) <==> Valid(re, a, v)
    decreases b, 0
  {
    assert a.UnionNode? && a.op == b.op by { assert ShapeOf(a).UnionShape?; }
    forall i, j | 0 <= i < |b.members| && 0 <= j < |a.members| && SameShape(b.members[i], a.members[j])
      ensures Valid(re, b.members[i], v) <==> Valid(re, a.members[j], v)
    {
      SameShapeSameMeaning(re, b.members[i], a.members[j], v);
    }
    if Valid(re, b, v) { UnionCarries(re, b, a, v); }
    if Valid(re, a, v) { UnionCarries(re, a, b, v); }
  }

  lemma UnionCarries(re: Regex, b: Node, a: Node, v: Json)
    requires b.UnionNode? && a.UnionNode? && a.op == b.op
    requires SameShape(b, a) && OnceEach(a)
    requires forall i, j | 0 <= i < |b.members| && 0 <= j < |a.members| && SameShape(b.members[i], a.members[j]) ::
               Valid(re, b.members[i], v) <==> Valid(re, a.members[j], v)
    requires Valid(re, b, v)
    ensures Valid(re, a, v)
  {
    var i := Pick(re, b, v);
    var j := Partner(b, a, i);
    forall l | 0 <= l < |a.members| && Valid(re, a.members[l], v)
      ensures b.op.OneOf? ==> l == j
    {
      var k := CoPartner(b, a, l);
      assert Valid(re, b.members[k], v);
      assert b.op.OneOf? ==> k == i;
    }
    assert Picks(re, a, j, v);
  }

  /** The member is one that makes the value valid under the union. */
  ghost predicate Picks(re: Regex, u: Node, i: nat, v: Json)
    requires u.UnionNode? && i < |u.members|
    ensures Picks(re, u, i, v) ==> Valid(re, u, v)
  {
    Valid(re, u.members[i], v)
    && (u.op.OneOf? ==> forall k | 0 <= k < |u.members| && k != i :: !Valid(re, u.members[k], v))
  }

  lemma Pick(re: Regex, u: Node, v: Json) returns (i: nat)
    requires u.UnionNode? && Valid(re, u, v)
    ensures i < |u.members| && Picks(re, u, i, v)
  {
    match u.op {
      case AnyOf =>
        i :| 0 <= i < |u.members| && Valid(re, u.members[i], v);
      case OneOf =>
        i :| 0 <= i < |u.members| && Valid(re, u.members[i], v)
             && forall k | 0 <= k < |u.members| && k != i :: !Valid(re, u.members[k], v);
    }
  }
}
