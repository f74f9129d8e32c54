/**
 Branches Reliable excludes, with the exact condition under which the diff's answer there
 agrees with the meaning: multipleOf, bare objects, twin literals, unions of unconstrained
 scalars and oneOfs that gain a member. UnionExactness has the unions in general: members of
 one key, whatever their constraints, and members that overlap.
 */
module DiffExactness {
  import opened Common
  import opened JsonValues
  import opened StructuralNodes
  import opened SchemaDiff
  import opened DiffSoundness

  // ---------------------------------------------------------------- multipleOf

  function MultipleOfNode(bound: real): Node {
    ScalarNode(NumberT, Limits(map[MultipleOf := bound], None))
  }

  lemma MultipleOfChange(re: Regex, before: real, after: real, path: string)
    ensures SchemaChanges(re, MultipleOfNode(before), MultipleOfNode(after), path)
         == if before == after then {}
            else if after < before then {Change(path, MajorBump, LimitTightened(NumberLimit(MultipleOf)))}
            else {Change(path, MinorBump, LimitLoosened(NumberLimit(MultipleOf)))}
  {
    var b, a := MultipleOfNode(before).limits, MultipleOfNode(after).limits;
    assert LIMIT_KEYS[9] == NumberLimit(MultipleOf);
    assert LimitChanges(b, a, path) == LimitChange(b, a, NumberLimit(MultipleOf), path);
  }

  /** multipleOf: compatible exactly when the old step is a multiple of the new one. The
      diff passes exactly a step that does not shrink, so of the steps it passes only the
      unchanged one is compatible. */
  lemma MultipleOfExact(re: Regex, before: real, after: real, path: string)
    requires before > 0.0 && after > 0.0
    ensures Subsumes(re, MultipleOfNode(before), MultipleOfNode(after)) <==> IsMultiple(before, after)
    ensures !HasMajor(SchemaChanges(re, MultipleOfNode(before), MultipleOfNode(after), path)) <==> after >= before
    ensures after >= before ==>
              (Subsumes(re, MultipleOfNode(before), MultipleOfNode(after)) <==> before == after)
  {
    MultipleOfChange(re, before, after, path);
    var b, a := MultipleOfNode(before), MultipleOfNode(after);
    var own := JNum(before);
    assert before == Times(1, before);
    assert IsMultiple(before, before);
    assert Valid(re, b, own);
    assert Valid(re, a, own) ==> NumberHolds(MultipleOf, a.limits.numbers[MultipleOf], own);
    if IsMultiple(before, after) {
      forall v | Valid(re, b, v)
        ensures Valid(re, a, v)
      {
        assert NumberHolds(MultipleOf, b.limits.numbers[MultipleOf], v);
        MultiplesCompose(v.n, before, after);
      }
    }
    if after > before && IsMultiple(before, after) {
      var k: int :| before == Times(k, after);
      NoSmallMultiple(k, before, after);
    }
    if before == after {
      assert IsMultiple(before, after);
    }
  }

  function IntegerMultipleOfNode(bound: real): Node {
    ScalarNode(IntegerT, Limits(map[MultipleOf := bound], None))
  }

  ghost predicate IntegerMultiple(n: int, step: real) {
    IsMultiple(n as real, step)
  }

  /** The least positive integer that is a multiple of the step. */
  ghost predicate LeastInteger(least: nat, step: real) {
    && least > 0 && IntegerMultiple(least, step)
    && forall n: int | 0 < n < least :: !IntegerMultiple(n, step)
  }

  /** On integers the old step counts by the integers it allows: compatible exactly when the
      least positive one is a multiple of the new step. So 0.5 to 1 is compatible. */
  lemma IntegerMultipleOfExact(re: Regex, before: real, after: real, least: nat)
    requires before > 0.0 && after > 0.0 && LeastInteger(least, before)
    ensures Subsumes(re, IntegerMultipleOfNode(before), IntegerMultipleOfNode(after))
            <==> IsMultiple(least as real, after)
  {
    var b, a := IntegerMultipleOfNode(before), IntegerMultipleOfNode(after);
    var own := JNum(least as real);
    IntegerMultipleAccepts(re, before, own);
    IntegerMultipleAccepts(re, after, own);
    if IsMultiple(least as real, after) {
      forall v | Valid(re, b, v)
        ensures Valid(re, a, v)
      {
        assert HasType(IntegerT, v);
        IntegerMultipleAccepts(re, before, v);
        IntegerMultipleAccepts(re, after, v);
        MultipleOfLeast(v.n.Floor, before, least);
        MultiplesCompose(v.n, least as real, after);
      }
    }
  }

  /** A step no positive integer is a multiple of allows zero alone: always compatible. */
  lemma NoIntegerMultiple(re: Regex, before: real, after: real)
    requires before > 0.0 && after > 0.0 && forall n: int | n > 0 :: !IntegerMultiple(n, before)
    ensures Subsumes(re, IntegerMultipleOfNode(before), IntegerMultipleOfNode(after))
  {
    forall v | Valid(re, IntegerMultipleOfNode(before), v)
      ensures Valid(re, IntegerMultipleOfNode(after), v)
    {
      assert HasType(IntegerT, v);
      IntegerMultipleAccepts(re, before, v);
      IntegerMultipleAccepts(re, after, v);
      var n := v.n.Floor;
      SubtractMultiples(0.0, v.n, before, 1);
      assert IntegerMultiple(n, before) && IntegerMultiple(-n, before);
      assert 0.0 == Times(0, after);
    }
  }

  lemma IntegerMultipleAccepts(re: Regex, step: real, v: Json)
    ensures Valid(re, IntegerMultipleOfNode(step), v) <==> v.JNum? && IsInteger(v.n) && IsMultiple(v.n, step)
  {
    var limits := IntegerMultipleOfNode(step).limits;
    assert MultipleOf in limits.numbers && limits.numbers[MultipleOf] == step;
    assert LimitsHold(re, limits, v) <==> NumberHolds(MultipleOf, limits.numbers[MultipleOf], v);
  }

  lemma SubtractMultiples(x: real, y: real, step: real, q: int)
    requires (x == 0.0 || IsMultiple(x, step)) && IsMultiple(y, step)
    ensures IsMultiple(x - q as real * y, step)
  {
    assert 0.0 == Times(0, step);
    var j: int :| x == Times(j, step);
    var k: int :| y == Times(k, step);
    assert (q * k) as real == q as real * k as real;
    assert q as real * (k as real * step) == (q * k) as real * step;
    assert x - q as real * y == Times(j - q * k, step);
  }

  /** An integer multiple of the step is a multiple of the least positive one. */
  lemma MultipleOfLeast(n: int, step: real, least: nat)
    requires LeastInteger(least, step) && IntegerMultiple(n, step)
    ensures IsMultiple(n as real, least as real)
  {
    var q, rest := n / least, n % least;
    assert n == q * least + rest;
    assert (q * least) as real == q as real * least as real;
    SubtractMultiples(n as real, least as real, step, q);
    assert IntegerMultiple(rest, step);
    assert n as real == Times(q, least as real);
  }

  lemma MultiplesCompose(x: real, y: real, z: real)
    requires IsMultiple(x, y) && IsMultiple(y, z)
    ensures IsMultiple(x, z)
  {
    var j: int :| x == Times(j, y);
    var k: int :| y == Times(k, z);
    assert x == Times(j * k, z);
  }

  lemma NoSmallMultiple(k: int, x: real, step: real)
    requires 0.0 < x < step
    ensures x != Times(k, step)
  {
    if k <= 0 {
      assert k as real * step <= 0.0;
    } else {
      var more := k as real - 1.0;
      assert more >= 0.0;
      assert more * step >= 0.0;
      assert Times(k, step) == more * step + step;
    }
  }

  // ---------------------------------------------------------------- a free-form object that gains properties

  ghost function Longest(names: set<string>): (n: nat)
    ensures forall name | name in names :: |name| <= n
  {
    if names == {} then 0
    else
      var name :| name in names;
      var rest := Longest(names - {name});
      if |name| > rest then |name| else rest
  }

  /** A free-form object may carry any field; one that declares properties may not. */
  lemma FreeFormMeaning(re: Regex, after: Fields)
    ensures Subsumes(re, ObjectNode(map[]), ObjectNode(after)) <==> after == map[]
  {
    if after != map[] {
      var novel := seq(Longest(after.Keys) + 1, _ => 'x');
      var v := JObj(map[novel := JNull]);
      assert novel in v.fields.Keys && novel !in after;
      assert Valid(re, ObjectNode(map[]), v) && !Valid(re, ObjectNode(after), v);
    }
  }

  /** Declaring properties on a free-form object is never compatible; the diff passes it
      exactly when they are all optional. */
  lemma FreeFormExact(re: Regex, after: Fields, path: string)
    ensures !HasMajor(SchemaChanges(re, ObjectNode(map[]), ObjectNode(after), path))
            <==> forall name | name in after :: !after[name].required
    ensures Subsumes(re, ObjectNode(map[]), ObjectNode(after)) <==> after == map[]
  {
    FreeFormMeaning(re, after);
    FreeFormChanges(re, after, path);
    var changes := SchemaChanges(re, ObjectNode(map[]), ObjectNode(after), path);
    if name :| name in after && after[name].required {
      assert Added(name, after, path) in changes;
    }
  }

  function Added(name: string, after: Fields, path: string): Change
    requires name in after
  {
    var required := after[name].required;
    Change(Child(path, name), if required then MajorBump else MinorBump, FieldAdded(required))
  }

  lemma FreeFormChanges(re: Regex, after: Fields, path: string)
    ensures SchemaChanges(re, ObjectNode(map[]), ObjectNode(after), path)
         == set name | name in after :: Added(name, after, path)
  {
    var b, a := ObjectNode(map[]), ObjectNode(after);
    assert b.properties.Keys + a.properties.Keys == after.Keys;
    var changes := FieldChangesOver(re, b, a, after.Keys, path);
    assert SchemaChanges(re, b, a, path) == changes;
    forall c
      ensures c in changes <==> exists name | name in after :: c == Added(name, after, path)
    {
      if name :| name in after && c == Added(name, after, path) {
        assert c in FieldChange(re, b, a, name, path);
      }
    }
  }

  // ---------------------------------------------------------------- literals Python finds equal

  /** A const the diff passes is compatible exactly when it is not the old one's boolean or
      number twin: true against 1 reports no change. */
  lemma ConstExact(re: Regex, before: Scalar, after: Scalar, path: string)
    requires !HasMajor(SchemaChanges(re, ConstNode(before), ConstNode(after), path))
    ensures Subsumes(re, ConstNode(before), ConstNode(after)) <==> !Twins(before, after)
  {
    assert !PyEq(before, after) ==>
        Change(path, MajorBump, ConstChanged) in SchemaChanges(re, ConstNode(before), ConstNode(after), path);
    assert Valid(re, ConstNode(before), ToJson(before));
  }

  lemma EnumExact(re: Regex, before: seq<Scalar>, after: seq<Scalar>, path: string)
    requires !HasMajor(SchemaChanges(re, EnumNode(before), EnumNode(after), path))
    ensures Subsumes(re, EnumNode(before), EnumNode(after)) <==> TwinsKept(before, after)
  {
    var b, a := EnumNode(before), EnumNode(after);
    if TwinsKept(before, after) {
      forall v | Valid(re, b, v)
        ensures Valid(re, a, v)
      {
        var c :| c in before && v == ToJson(c);
        EnumSound(before, after, path, c);
      }
    }
    if Subsumes(re, b, a) {
      forall x | x in before
        ensures exists y | y in after :: SameJson(x, y)
      {
        assert Valid(re, b, ToJson(x));
        var y :| y in after && ToJson(x) == ToJson(y);
        assert SameJson(x, y);
      }
    }
  }

  // ---------------------------------------------------------------- union members that share a key

  function PlainMembers(types: seq<ScalarType>): seq<Node> {
    seq(|types|, i requires 0 <= i < |types| => ScalarNode(types[i], NO_LIMITS))
  }

  function PlainUnion(types: seq<ScalarType>): Node {
    UnionNode(AnyOf, PlainMembers(types))
  }

  /** Some listed type accepts everything the type accepts. */
  predicate Covered(t: ScalarType, types: seq<ScalarType>) {
    t in types || AnyT in types || (t == IntegerT && NumberT in types)
  }

  const ONE_KEY := MemberKey(ScalarK, {})

  lemma {:induction false} ScalarMembersCollapse(types: seq<ScalarType>, tagged: bool)
    requires types != []
    ensures ByKey(PlainMembers(types), tagged) == map[ONE_KEY := ScalarNode(types[|types| - 1], NO_LIMITS)]
  {
    var ms := PlainMembers(types);
    var last := types[|types| - 1];
    assert ms[|types| - 1] == ScalarNode(last, NO_LIMITS);
    assert ms[..|ms| - 1] == PlainMembers(types[..|types| - 1]);
    assert KeyOf(ScalarNode(last, NO_LIMITS), tagged) == ONE_KEY;
    if |types| > 1 {
      ScalarMembersCollapse(types[..|types| - 1], tagged);
    }
  }

  lemma NoLimitsNoChange(path: string)
    ensures LimitChanges(NO_LIMITS, NO_LIMITS, path) == {}
  {
  }

  lemma ScalarChanges(re: Regex, before: ScalarType, after: ScalarType, path: string)
    ensures SchemaChanges(re, ScalarNode(before, NO_LIMITS), ScalarNode(after, NO_LIMITS), path)
         == if before == after then {} else {Change(path, MajorBump, TypeChanged)}
  {
    NoLimitsNoChange(path);
    assert !PatternAdopted(re, ScalarNode(before, NO_LIMITS), ScalarNode(after, NO_LIMITS));
  }

  /** Every scalar member has one key, null included, so a union of plain scalar types is
      compared by its last member alone. */
  lemma PlainUnionPasses(re: Regex, before: seq<ScalarType>, after: seq<ScalarType>, path: string)
    requires before != [] && after != []
    ensures !HasMajor(SchemaChanges(re, PlainUnion(before), PlainUnion(after), path))
            <==> before[|before| - 1] == after[|after| - 1]
    ensures before[|before| - 1] == after[|after| - 1] ==>
              SchemaChanges(re, PlainUnion(before), PlainUnion(after), path) == {}
  {
    PlainUnionChanges(re, before, after, path);
    ScalarChanges(re, before[|before| - 1], after[|after| - 1], path);
  }

  lemma PlainUnionChanges(re: Regex, before: seq<ScalarType>, after: seq<ScalarType>, path: string)
    requires before != [] && after != []
    ensures SchemaChanges(re, PlainUnion(before), PlainUnion(after), path)
         == SchemaChanges(re, ScalarNode(before[|before| - 1], NO_LIMITS),
                          ScalarNode(after[|after| - 1], NO_LIMITS), path)
  {
    var b, a := PlainUnion(before), PlainUnion(after);
    var tagged := Tagged(b.members, a.members);
    ScalarMembersCollapse(before, tagged);
    ScalarMembersCollapse(after, tagged);
    OneKeyEach(re, b, a, ONE_KEY, ScalarNode(before[|before| - 1], NO_LIMITS),
               ScalarNode(after[|after| - 1], NO_LIMITS), path);
  }

  /** Unions of one key each are compared by the members behind it. */
  lemma OneKeyEach(re: Regex, b: Node, a: Node, k: MemberKey, m: Node, n: Node, path: string)
    requires b.UnionNode? && a.UnionNode? && b.op == a.op
    requires ByKey(b.members, Tagged(b.members, a.members)) == map[k := m]
    requires ByKey(a.members, Tagged(b.members, a.members)) == map[k := n]
    ensures SchemaChanges(re, b, a, path) == SchemaChanges(re, m, n, path)
  {
    OneKeyChanges(re, b, a, k, path);
    assert MemberChange(re, b, a, k, path) == SchemaChanges(re, m, n, path);
  }

  lemma OneKeyChanges(re: Regex, b: Node, a: Node, k: MemberKey, path: string)
    requires b.UnionNode? && a.UnionNode? && b.op == a.op
    requires var tagged := Tagged(b.members, a.members);
             ByKey(b.members, tagged).Keys + ByKey(a.members, tagged).Keys == {k}
    ensures SchemaChanges(re, b, a, path) == MemberChange(re, b, a, k, path)
  {
    assert SchemaChanges(re, b, a, path) == UnionChanges(re, b, a, path);
    assert UnionChanges(re, b, a, path) == MemberChangesOver(re, b, a, {k}, path);
  }

  /** A value of the type that only a covering list of types accepts. */
  function Witness(t: ScalarType): Json {
    match t
    case AnyT => JArr([])
    case StringT => JStr("")
    case IntegerT => JNum(0.0)
    case NumberT => JNum(0.5)
    case BooleanT => JBool(true)
    case NullT => JNull
  }

  lemma PlainUnionAccepts(re: Regex, types: seq<ScalarType>, v: Json)
    ensures Valid(re, PlainUnion(types), v) <==> exists t | t in types :: HasType(t, v)
  {
    var ms := PlainMembers(types);
    if t :| t in types && HasType(t, v) {
      var i :| 0 <= i < |types| && types[i] == t;
      assert Valid(re, ms[i], v);
    }
    if Valid(re, PlainUnion(types), v) {
      var i :| 0 <= i < |ms| && Valid(re, ms[i], v);
      assert types[i] in types && HasType(types[i], v);
    }
  }

  lemma WitnessNeedsCover(t: ScalarType, types: seq<ScalarType>)
    ensures (exists u | u in types :: HasType(u, Witness(t))) <==> Covered(t, types)
  {
    assert (0.0).Floor == 0 && (0.5).Floor == 0;
    assert HasType(t, Witness(t));
  }

  /** Passed exactly when the last types agree, such unions are compatible exactly when every
      old type is covered. So int|null against bool|null passes with no change at all, and
      rejects every old integer. */
  lemma PlainUnionExact(re: Regex, before: seq<ScalarType>, after: seq<ScalarType>)
    ensures Subsumes(re, PlainUnion(before), PlainUnion(after))
            <==> forall t | t in before :: Covered(t, after)
  {
    var b, a := PlainUnion(before), PlainUnion(after);
    if Subsumes(re, b, a) {
      forall t | t in before
        ensures Covered(t, after)
      {
        PlainUnionAccepts(re, before, Witness(t));
        PlainUnionAccepts(re, after, Witness(t));
        WitnessNeedsCover(t, [t]);
        assert HasType(t, Witness(t)) by { assert t in [t]; WitnessNeedsCover(t, [t]); }
        assert Valid(re, a, Witness(t));
        WitnessNeedsCover(t, after);
      }
    }
    if forall t | t in before :: Covered(t, after) {
      forall v | Valid(re, b, v)
        ensures Valid(re, a, v)
      {
        PlainUnionAccepts(re, before, v);
        PlainUnionAccepts(re, after, v);
        var t :| t in before && HasType(t, v);
        assert Covered(t, after);
        assert HasType(AnyT, v);
        assert t == IntegerT ==> HasType(NumberT, v);
      }
    }
  }

  lemma OptionalIntBecomesOptionalBool(re: Regex, path: string)
    ensures SchemaChanges(re, PlainUnion([IntegerT, NullT]), PlainUnion([BooleanT, NullT]), path) == {}
    ensures !Subsumes(re, PlainUnion([IntegerT, NullT]), PlainUnion([BooleanT, NullT]))
  {
    PlainUnionPasses(re, [IntegerT, NullT], [BooleanT, NullT], path);
    PlainUnionExact(re, [IntegerT, NullT], [BooleanT, NullT]);
    assert IntegerT in [IntegerT, NullT];
  }

  // ---------------------------------------------------------------- oneOf members that overlap

  /** A oneOf that gains a member, whatever it is: compatible exactly when the new member
      accepts nothing the old union accepted. */
  lemma GainedMemberExact(re: Regex, members: seq<Node>, gained: Node)
    ensures Subsumes(re, UnionNode(OneOf, members), UnionNode(OneOf, members + [gained]))
            <==> forall v | Valid(re, UnionNode(OneOf, members), v) :: !Valid(re, gained, v)
  {
    var b, a := UnionNode(OneOf, members), UnionNode(OneOf, members + [gained]);
    assert a.members[..|members|] == members && a.members[|members|] == gained;
    GainedMember(re, b, a);
  }

  lemma GainedMember(re: Regex, before: Node, after: Node)
    requires before.UnionNode? && before.op.OneOf? && after.UnionNode? && after.op.OneOf?
    requires |after.members| == |before.members| + 1 && after.members[..|before.members|] == before.members
    ensures Subsumes(re, before, after)
            <==> forall v | Valid(re, before, v) :: !Valid(re, after.members[|before.members|], v)
  {
    hide Valid;
    var gained := after.members[|before.members|];
    forall v | Valid(re, before, v)
      ensures Valid(re, after, v) <==> !Valid(re, gained, v)
    {
      if Valid(re, gained, v) {
        TwoMatch(re, before, after, v);
      } else {
        OneStillMatches(re, before, after, v);
      }
    }
    if v :| Valid(re, before, v) && !Valid(re, after, v) {
      assert Valid(re, gained, v);
    } else {
      assert forall v | Valid(re, before, v) :: Valid(re, after, v);
    }
  }

  lemma TwoMatch(re: Regex, before: Node, after: Node, v: Json)
    requires before.UnionNode? && before.op.OneOf? && after.UnionNode? && after.op.OneOf?
    requires |after.members| == |before.members| + 1 && after.members[..|before.members|] == before.members
    requires Valid(re, before, v) && Valid(re, after.members[|before.members|], v)
    ensures !Valid(re, after, v)
  {
    var n := |before.members|;
    var i :| 0 <= i < n && Valid(re, before.members[i], v);
    assert Valid(re, after.members[n], v) && Valid(re, after.members[..n][i], v);
  }

  lemma OneStillMatches(re: Regex, before: Node, after: Node, v: Json)
    requires before.UnionNode? && before.op.OneOf? && after.UnionNode? && after.op.OneOf?
    requires |after.members| == |before.members| + 1 && after.members[..|before.members|] == before.members
    requires Valid(re, before, v) && !Valid(re, after.members[|before.members|], v)
    ensures Valid(re, after, v)
  {
    var n := |before.members|;
    var i :| 0 <= i < n && Valid(re, before.members[i], v)
             && forall j | 0 <= j < n && j != i :: !Valid(re, before.members[j], v);
    assert forall j | 0 <= j < n :: after.members[j] == after.members[..n][j];
    assert Valid(re, after.members[i], v);
    assert forall j | 0 <= j < |after.members| && j != i :: !Valid(re, after.members[j], v);
  }

  /** Of literals: exactly when the old union accepts none of them. */
  lemma GainedLiteralsExact(re: Regex, members: seq<Node>, literals: seq<Scalar>)
    ensures Subsumes(re, UnionNode(OneOf, members), UnionNode(OneOf, members + [EnumNode(literals)]))
            <==> forall c | c in literals :: !Valid(re, UnionNode(OneOf, members), ToJson(c))
  {
    var b, e := UnionNode(OneOf, members), EnumNode(literals);
    GainedMemberExact(re, members, e);
    forall c | c in literals
      ensures Valid(re, e, ToJson(c))
    {
    }
    if forall c | c in literals :: !Valid(re, b, ToJson(c)) {
      forall v | Valid(re, b, v)
        ensures !Valid(re, e, v)
      {
        assert forall c | c in literals :: v != ToJson(c);
      }
    }
  }

  /** The smallest case: the gained member accepts what an old one accepts, the diff says
      MINOR, and the old value now matches two members. */
  lemma OverlappingOneOf(re: Regex, c: Scalar, path: string)
    ensures var before := UnionNode(OneOf, [ConstNode(c)]);
            var after := UnionNode(OneOf, [ConstNode(c), EnumNode([c])]);
            !HasMajor(SchemaChanges(re, before, after, path)) && !Subsumes(re, before, after)
  {
    OverlapRejects(re, c, [ConstNode(c)], [c]);
    assert [ConstNode(c)] + [EnumNode([c])] == [ConstNode(c), EnumNode([c])];
    OverlapChanges(re, c, path);
  }

  lemma OverlapRejects(re: Regex, c: Scalar, members: seq<Node>, literals: seq<Scalar>)
    requires members == [ConstNode(c)] && literals == [c]
    ensures !Subsumes(re, UnionNode(OneOf, members), UnionNode(OneOf, members + [EnumNode(literals)]))
  {
    GainedLiteralsExact(re, members, literals);
    assert Valid(re, members[0], ToJson(c)) && c in literals;
  }

  lemma OverlapIndexes(c: Scalar)
    ensures ObjectCount([ConstNode(c)]) == 0 && ObjectCount([ConstNode(c), EnumNode([c])]) == 0
    ensures ByKey([ConstNode(c)], false) == map[MemberKey(ConstK, {}) := ConstNode(c)]
    ensures ByKey([ConstNode(c), EnumNode([c])], false)
         == map[MemberKey(ConstK, {}) := ConstNode(c), MemberKey(EnumK, {}) := EnumNode([c])]
  {
    assert [ConstNode(c)][..0] == [];
    assert [ConstNode(c), EnumNode([c])][..1] == [ConstNode(c)];
  }

  lemma OverlapChanges(re: Regex, c: Scalar, path: string)
    ensures SchemaChanges(re, UnionNode(OneOf, [ConstNode(c)]), UnionNode(OneOf, [ConstNode(c), EnumNode([c])]), path)
         == {Change(path, MinorBump, MemberGained(MemberKey(EnumK, {})))}
  {
    OverlapIndexes(c);
    var b, a := UnionNode(OneOf, [ConstNode(c)]), UnionNode(OneOf, [ConstNode(c), EnumNode([c])]);
    var k, e := MemberKey(ConstK, {}), MemberKey(EnumK, {});
    assert SchemaChanges(re, b, a, path) == UnionChanges(re, b, a, path);
    assert UnionChanges(re, b, a, path) == MemberChangesOver(re, b, a, {k, e}, path);
    assert MemberChange(re, b, a, k, path) == {};
    assert MemberChange(re, b, a, e, path) == {Change(path, MinorBump, MemberGained(e))};
    OneMoreMember(re, b, a, {}, k, path);
    OneMoreMember(re, b, a, {k}, e, path);
    assert {} + {k} == {k} && {k} + {e} == {k, e};
  }
}
