/**
 Unions whose members share a key, or overlap, exactly: what the diff compares, what it
 passes, and when passing is compatible. Every scalar member has one key, null included, so
 an optional number is compared by its null alone.
 */
module UnionExactness {
  import opened Common
  import opened JsonValues
  import opened StructuralNodes
  import opened SchemaDiff
  import opened DiffSoundness
  import opened DiffCompleteness
  import opened DiffExactness
  import opened DiffPrecision

  // ---------------------------------------------------------------- unions of one key

  predicate OneKey(ms: seq<Node>, tagged: bool, k: MemberKey) {
    ms != [] && forall m | m in ms :: KeyOf(m, tagged) == k
  }

  function Last(ms: seq<Node>): Node
    requires ms != []
  {
    ms[|ms| - 1]
  }

  lemma OneKeyIndex(ms: seq<Node>, tagged: bool, k: MemberKey)
    requires OneKey(ms, tagged, k)
    ensures ByKey(ms, tagged) == map[k := Last(ms)]
  {
    var index := ByKey(ms, tagged);
    assert Last(ms) in ms;
    forall l | l in index
      ensures l == k
    {
      assert index[l] in ms;
    }
    var i := LastOfKey(ms, tagged, k);
    assert ms[|ms| - 1] in ms;
    assert i == |ms| - 1;
  }

  /** Two unions whose members all have one key are compared by their last members alone. */
  lemma OneKeyUnions(re: Regex, b: Node, a: Node, k: MemberKey, path: string)
    requires b.UnionNode? && a.UnionNode? && b.op == a.op
    requires OneKey(b.members, Tagged(b.members, a.members), k) && OneKey(a.members, Tagged(b.members, a.members), k)
    ensures SchemaChanges(re, b, a, path) == SchemaChanges(re, Last(b.members), Last(a.members), path)
  {
    OneKeyIndex(b.members, Tagged(b.members, a.members), k);
    OneKeyIndex(a.members, Tagged(b.members, a.members), k);
    OneKeyEach(re, b, a, k, Last(b.members), Last(a.members), path);
  }

  /** With one last member the diff is empty, whatever the others are and were. */
  lemma OneLastMember(re: Regex, b: Node, a: Node, k: MemberKey, path: string)
    requires b.UnionNode? && a.UnionNode? && b.op == a.op
    requires OneKey(b.members, Tagged(b.members, a.members), k) && OneKey(a.members, Tagged(b.members, a.members), k)
    requires Last(b.members) == Last(a.members)
    ensures SchemaChanges(re, b, a, path) == {}
  {
    OneKeyUnions(re, b, a, k, path);
    SelfDiff(re, Last(b.members), path);
  }

  // ---------------------------------------------------------------- what an anyOf accepts

  lemma AnyOfCovers(re: Regex, ms: seq<Node>, a: Node)
    ensures Subsumes(re, UnionNode(AnyOf, ms), a) <==> forall m | m in ms :: Subsumes(re, m, a)
  {
    var b := UnionNode(AnyOf, ms);
    forall m, v | m in ms && Valid(re, m, v)
      ensures Valid(re, b, v)
    {
      var i :| 0 <= i < |ms| && ms[i] == m;
    }
    if forall m | m in ms :: Subsumes(re, m, a) {
      forall v | Valid(re, b, v)
        ensures Valid(re, a, v)
      {
        var i :| 0 <= i < |ms| && Valid(re, ms[i], v);
        assert ms[i] in ms && Subsumes(re, ms[i], a);
      }
    }
  }

  ghost predicate OneClass(node: Node) {
    exists c: Class :: Classes(node) == {c}
  }

  predicate DisjointClasses(ns: seq<Node>) {
    forall i, j | 0 <= i < j < |ns| :: Classes(ns[i]) !! Classes(ns[j])
  }

  /** A member of one class is accepted by an anyOf of disjoint classes exactly when one of its
      members accepts it. */
  lemma OneClassCovered(re: Regex, m: Node, ns: seq<Node>)
    requires Inhabited(re, m) && OneClass(m) && DisjointClasses(ns)
    ensures Subsumes(re, m, UnionNode(AnyOf, ns)) <==> exists n | n in ns :: Subsumes(re, m, n)
  {
    var a := UnionNode(AnyOf, ns);
    if Subsumes(re, m, a) {
      var v := Sample(re, m);
      var i :| 0 <= i < |ns| && Valid(re, ns[i], v);
      ValidClass(re, m, v);
      ValidClass(re, ns[i], v);
      forall w | Valid(re, m, w)
        ensures Valid(re, ns[i], w)
      {
        var j :| 0 <= j < |ns| && Valid(re, ns[j], w);
        ValidClass(re, m, w);
        ValidClass(re, ns[j], w);
        assert ClassOf(w) == ClassOf(v);
        assert i == j;
      }
      assert ns[i] in ns;
    }
    if n :| n in ns && Subsumes(re, m, n) {
      var i :| 0 <= i < |ns| && ns[i] == n;
      forall v | Valid(re, m, v)
        ensures Valid(re, a, v)
      {
        assert Valid(re, ns[i], v);
      }
    }
  }

  /** Two anyOfs of members of one class each, constraints and all: compatible exactly when
      every old member is within a new one. */
  lemma AnyOfExact(re: Regex, ms: seq<Node>, ns: seq<Node>)
    requires (forall m | m in ms :: Inhabited(re, m) && OneClass(m)) && DisjointClasses(ns)
    ensures Subsumes(re, UnionNode(AnyOf, ms), UnionNode(AnyOf, ns))
            <==> forall m | m in ms :: exists n | n in ns :: Subsumes(re, m, n)
  {
    AnyOfCovers(re, ms, UnionNode(AnyOf, ns));
    forall m | m in ms
      ensures Subsumes(re, m, UnionNode(AnyOf, ns)) <==> exists n | n in ns :: Subsumes(re, m, n)
    {
      OneClassCovered(re, m, ns);
    }
  }

  // ---------------------------------------------------------------- an optional scalar

  const NULL_MEMBER := ScalarNode(NullT, NO_LIMITS)

  /** As pydantic writes T | None, sorted: null comes last. */
  function Optional(typ: ScalarType, limits: Limits): Node {
    UnionNode(AnyOf, [ScalarNode(typ, limits), NULL_MEMBER])
  }

  lemma OptionalAccepts(re: Regex, typ: ScalarType, limits: Limits, v: Json)
    ensures Valid(re, Optional(typ, limits), v) <==> Valid(re, ScalarNode(typ, limits), v) || v == JNull
  {
    var ms := Optional(typ, limits).members;
    assert ms[0] == ScalarNode(typ, limits) && ms[1] == NULL_MEMBER;
    assert Valid(re, ms[1], v) <==> v == JNull;
  }

  /** The diff of two optional scalars is empty, whatever their types and constraints; they are
      compatible exactly when the scalars are. */
  lemma OptionalExact(re: Regex, t: ScalarType, before: Limits, u: ScalarType, after: Limits, path: string)
    requires t != NullT && t != AnyT && u != NullT && u != AnyT
    ensures SchemaChanges(re, Optional(t, before), Optional(u, after), path) == {}
    ensures Subsumes(re, Optional(t, before), Optional(u, after))
            <==> Subsumes(re, ScalarNode(t, before), ScalarNode(u, after))
  {
    var b, a := Optional(t, before), Optional(u, after);
    ScalarsShareAKey(b.members, Tagged(b.members, a.members));
    ScalarsShareAKey(a.members, Tagged(b.members, a.members));
    OneLastMember(re, b, a, ONE_KEY, path);
    hide Optional;
    forall v
      ensures Valid(re, b, v) <==> Valid(re, ScalarNode(t, before), v) || v == JNull
      ensures Valid(re, a, v) <==> Valid(re, ScalarNode(u, after), v) || v == JNull
    {
      OptionalAccepts(re, t, before, v);
      OptionalAccepts(re, u, after, v);
    }
    assert !Valid(re, ScalarNode(t, before), JNull);
  }

  lemma ScalarsShareAKey(ms: seq<Node>, tagged: bool)
    requires ms != [] && forall m | m in ms :: m.ScalarNode?
    ensures OneKey(ms, tagged, ONE_KEY)
  {
    forall m | m in ms
      ensures KeyOf(m, tagged) == ONE_KEY
    {
    }
  }

  /** One bound of an optional number or integer: the diff never sees it; compatible exactly
      when it is no tighter, on integers after rounding. */
  lemma OptionalBoundExact(re: Regex, typ: ScalarType, key: NumberKey, before: Option<real>, after: Option<real>,
                           path: string)
    requires (typ == NumberT || typ == IntegerT) && IsBound(key)
    ensures var b, a := Optional(typ, Bound(key, before)), Optional(typ, Bound(key, after));
            && SchemaChanges(re, b, a, path) == {}
            && (Subsumes(re, b, a)
                <==> if typ == NumberT then !Tighter(key, before, after)
                     else !Tighter(key, Rounded(key, before), Rounded(key, after)))
  {
    OptionalExact(re, typ, Bound(key, before), typ, Bound(key, after), path);
    if typ == NumberT {
      NumberBoundExact(re, key, before, after, path);
      MajorMeansTighter(key, before, after, path);
      NumberChanges(re, key, before, after, path);
    } else {
      IntegerBoundMeaning(re, key, before, after);
    }
  }

  lemma NumberChanges(re: Regex, key: NumberKey, before: Option<real>, after: Option<real>, path: string)
    ensures SchemaChanges(re, ScalarNode(NumberT, Bound(key, before)), ScalarNode(NumberT, Bound(key, after)), path)
         == LimitChanges(Bound(key, before), Bound(key, after), path)
  {
  }

  /** So an optional number whose minimum goes from 0 to 5 shows no change, and loses 0 to 5. */
  lemma TightenedOptionalPasses(re: Regex, path: string)
    ensures var b, a := Optional(NumberT, Bound(Minimum, Some(0.0))), Optional(NumberT, Bound(Minimum, Some(5.0)));
            SchemaChanges(re, b, a, path) == {} && !Subsumes(re, b, a)
  {
    OptionalBoundExact(re, NumberT, Minimum, Some(0.0), Some(5.0), path);
  }

  // ---------------------------------------------------------------- any union the diff passes

  /** The new node accepts every value the old one did, among those with published versions. */
  ghost predicate Keeps(re: Regex, b: Node, a: Node, path: string) {
    forall v | Published(re, v, path) && Valid(re, b, v) :: Valid(re, a, v)
  }

  /** The members the diff compares can be trusted. */
  predicate ComparedReliable(b: Node, a: Node)
    requires b.UnionNode? && a.UnionNode?
  {
    var tagged := Tagged(b.members, a.members);
    var bs, as_ := ByKey(b.members, tagged), ByKey(a.members, tagged);
    forall k | k in bs && k in as_ :: Reliable(bs[k], as_[k])
  }

  /** A member behind a later one of its key: the diff never looks at it. */
  predicate Shadowed(b: Node, a: Node, m: Node)
    requires b.UnionNode? && a.UnionNode? && m in b.members
  {
    var tagged := Tagged(b.members, a.members);
    ByKey(b.members, tagged)[KeyOf(m, tagged)] != m
  }

  ghost predicate SomeMember(re: Regex, ns: seq<Node>, v: Json) {
    exists n | n in ns :: Valid(re, n, v)
  }

  /** A value of a compared member is accepted by a new member. */
  lemma ComparedMemberKept(re: Regex, b: Node, a: Node, m: Node, path: string, v: Json)
    requires b.UnionNode? && a.UnionNode? && b.op == a.op && m in b.members && !Shadowed(b, a, m)
    requires !HasMajor(UnionChanges(re, b, a, path)) && ComparedReliable(b, a)
    requires Published(re, v, path) && Valid(re, m, v)
    ensures SomeMember(re, a.members, v)
  {
    var tagged := Tagged(b.members, a.members);
    var bs, as_ := ByKey(b.members, tagged), ByKey(a.members, tagged);
    var k := KeyOf(m, tagged);
    var changes := MemberChange(re, b, a, k, path);
    assert UnionChanges(re, b, a, path) == MemberChangesOver(re, b, a, bs.Keys + as_.Keys, path);
    assert changes <= UnionChanges(re, b, a, path);
    NoMajorIn(UnionChanges(re, b, a, path), changes);
    assert k !in as_ ==> Change(path, MajorBump, MemberLost(k)) in changes;
    DiffSound(re, m, as_[k], path, v);
    assert as_[k] in a.members;
  }

  /** An anyOf the diff passes is compatible exactly when every shadowed old member is. */
  lemma AnyOfPassesExact(re: Regex, b: Node, a: Node, path: string)
    requires b.UnionNode? && a.UnionNode? && b.op.AnyOf? && a.op.AnyOf?
    requires !HasMajor(UnionChanges(re, b, a, path)) && ComparedReliable(b, a)
    ensures Keeps(re, b, a, path) <==> forall m | m in b.members && Shadowed(b, a, m) :: Keeps(re, m, a, path)
  {
    hide Valid, Published, UnionChanges, HasMajor, ComparedReliable, Shadowed;
    if Keeps(re, b, a, path) {
      forall m, v | m in b.members && Published(re, v, path) && Valid(re, m, v)
        ensures Valid(re, a, v)
      {
        var i :| 0 <= i < |b.members| && b.members[i] == m;
        MemberOfAnyOf(re, b, i, v);
      }
    }
    if forall m | m in b.members && Shadowed(b, a, m) :: Keeps(re, m, a, path) {
      forall v | Published(re, v, path) && Valid(re, b, v)
        ensures Valid(re, a, v)
      {
        var i := Pick(re, b, v);
        var m := b.members[i];
        assert m in b.members;
        if Shadowed(b, a, m) {
          assert Keeps(re, m, a, path);
        } else {
          ComparedMemberKept(re, b, a, m, path, v);
          var n :| n in a.members && Valid(re, n, v);
          var j :| 0 <= j < |a.members| && a.members[j] == n;
          MemberOfAnyOf(re, a, j, v);
        }
      }
    }
  }

  lemma MemberOfAnyOf(re: Regex, u: Node, i: nat, v: Json)
    requires u.UnionNode? && u.op.AnyOf? && i < |u.members| && Valid(re, u.members[i], v)
    ensures Valid(re, u, v)
  {
  }

  /** Two members accept the value. */
  ghost predicate Twice(re: Regex, ns: seq<Node>, v: Json) {
    exists i, j | 0 <= i < j < |ns| :: Valid(re, ns[i], v) && Valid(re, ns[j], v)
  }

  lemma OneOfAccepts(re: Regex, ns: seq<Node>, v: Json)
    ensures Valid(re, UnionNode(OneOf, ns), v) <==> SomeMember(re, ns, v) && !Twice(re, ns, v)
  {
    hide Valid;
    OneOfOnce(re, ns, v);
    if SomeMember(re, ns, v) && !Twice(re, ns, v) {
      var n :| n in ns && Valid(re, n, v);
      var i :| 0 <= i < |ns| && ns[i] == n;
      forall j | 0 <= j < |ns| && j != i
        ensures !Valid(re, ns[j], v)
      {
        assert j < i || i < j;
      }
      OneOfMember(re, ns, i, v);
    }
  }

  lemma OneOfOnce(re: Regex, ns: seq<Node>, v: Json)
    ensures Valid(re, UnionNode(OneOf, ns), v) ==> SomeMember(re, ns, v) && !Twice(re, ns, v)
  {
    hide Valid;
    if Valid(re, UnionNode(OneOf, ns), v) {
      var i := Pick(re, UnionNode(OneOf, ns), v);
      assert ns[i] in ns;
    }
  }

  lemma OneOfMember(re: Regex, ns: seq<Node>, i: nat, v: Json)
    requires i < |ns| && Valid(re, ns[i], v) && forall j | 0 <= j < |ns| && j != i :: !Valid(re, ns[j], v)
    ensures Valid(re, UnionNode(OneOf, ns), v)
  {
  }

  /** A oneOf the diff passes, any old one to any new one, is compatible exactly when every
      value of a shadowed old member is accepted by some new member, and no old value by two. */
  lemma OneOfPassesExact(re: Regex, b: Node, a: Node, path: string)
    requires b.UnionNode? && a.UnionNode? && b.op.OneOf? && a.op.OneOf?
    requires !HasMajor(UnionChanges(re, b, a, path)) && ComparedReliable(b, a)
    ensures Keeps(re, b, a, path)
            <==> forall v | Published(re, v, path) && Valid(re, b, v) ::
                   !Twice(re, a.members, v) && ShadowedSeen(re, b, a, v)
  {
    hide Valid, Published, UnionChanges, HasMajor, ComparedReliable, Twice, ShadowedSeen;
    forall v | Published(re, v, path) && Valid(re, b, v)
      ensures Valid(re, a, v) <==> !Twice(re, a.members, v) && ShadowedSeen(re, b, a, v)
    {
      OneOfValueKept(re, b, a, path, v);
    }
    if v :| Published(re, v, path) && Valid(re, b, v) && !Valid(re, a, v) {
      assert !(!Twice(re, a.members, v) && ShadowedSeen(re, b, a, v));
    } else {
      assert Keeps(re, b, a, path);
    }
  }

  /** If only shadowed members accept the value, a new member still does. */
  ghost predicate ShadowedSeen(re: Regex, b: Node, a: Node, v: Json)
    requires b.UnionNode? && a.UnionNode?
  {
    forall m | m in b.members && Shadowed(b, a, m) && Valid(re, m, v) :: SomeMember(re, a.members, v)
  }

  lemma OneOfValueKept(re: Regex, b: Node, a: Node, path: string, v: Json)
    requires b.UnionNode? && a.UnionNode? && b.op.OneOf? && a.op.OneOf?
    requires !HasMajor(UnionChanges(re, b, a, path)) && ComparedReliable(b, a)
    requires Published(re, v, path) && Valid(re, b, v)
    ensures Valid(re, a, v) <==> !Twice(re, a.members, v) && ShadowedSeen(re, b, a, v)
  {
    hide Valid, Published, UnionChanges, HasMajor, ComparedReliable, Shadowed, Twice;
    assert b == UnionNode(OneOf, b.members) && a == UnionNode(OneOf, a.members);
    OneOfAccepts(re, b.members, v);
    OneOfAccepts(re, a.members, v);
    SomeMemberSeen(re, b, a, path, v);
  }

  lemma SomeMemberSeen(re: Regex, b: Node, a: Node, path: string, v: Json)
    requires b.UnionNode? && a.UnionNode? && b.op == a.op
    requires !HasMajor(UnionChanges(re, b, a, path)) && ComparedReliable(b, a)
    requires Published(re, v, path) && SomeMember(re, b.members, v)
    ensures SomeMember(re, a.members, v) <==> ShadowedSeen(re, b, a, v)
  {
    hide Valid, Published, UnionChanges, HasMajor, ComparedReliable, Shadowed;
    var m :| m in b.members && Valid(re, m, v);
    if !Shadowed(b, a, m) {
      ComparedMemberKept(re, b, a, m, path, v);
    }
  }
}
