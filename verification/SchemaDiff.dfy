/**
 The recursive diff of two structural trees (scripts/contract_schema_snapshot.py).

 The functions say which changes the diff reports, as a set; the methods below build the
 list, loop by loop, and are proved to report exactly that set. The order of the list,
 which only a message uses, is left open: the loops take names and keys in any order.
 */
module SchemaDiff {
  import opened Common
  import opened JsonValues
  import opened StructuralNodes

  datatype Bump = NoBump | MinorBump | MajorBump

  datatype What =
    | VersionPatternAdopted
    | TypeChanged
    | AdditionalShapeChanged
    | ConstChanged
    | EnumValueAdded(value: Scalar)
    | EnumValueRemoved(value: Scalar)
    | MemberGained(key: MemberKey)
    | MemberLost(key: MemberKey)
    | FieldAdded(required: bool)
    | FieldRemoved
    | RequiredChanged(nowRequired: bool)
    | LimitAdded(limit: LimitKey)
    | LimitRemoved(limit: LimitKey)
    | LimitTightened(limit: LimitKey)
    | LimitLoosened(limit: LimitKey)
    | PatternChanged

  datatype Change = Change(path: string, bump: Bump, what: What)

  datatype NodeKind = ConstK | EnumK | AnyOfK | OneOfK | ArrayK | ObjectK | ScalarK

  function KindOf(node: Node): NodeKind {
    match node
    case ConstNode(_) => ConstK
    case EnumNode(_) => EnumK
    case UnionNode(AnyOf, _) => AnyOfK
    case UnionNode(OneOf, _) => OneOfK
    case ArrayNode(_, _) => ArrayK
    case ObjectNode(_) => ObjectK
    case MapNode(_) => ObjectK
    case ScalarNode(_, _) => ScalarK
  }

  // ---------------------------------------------------------------- constraints

  datatype LimitKey = NumberLimit(key: NumberKey) | PatternLimit

  const LIMIT_KEYS: seq<LimitKey> := [
    NumberLimit(Minimum), NumberLimit(ExclusiveMinimum), NumberLimit(Maximum),
    NumberLimit(ExclusiveMaximum), NumberLimit(MinLength), NumberLimit(MaxLength),
    PatternLimit, NumberLimit(MinItems), NumberLimit(MaxItems), NumberLimit(MultipleOf)]

  const TIGHTENS_WHEN_INCREASED: set<NumberKey> := {Minimum, ExclusiveMinimum, MinLength, MinItems}

  function Get<K, V>(m: map<K, V>, k: K): Option<V> {
    if k in m then Some(m[k]) else None
  }

  /** What the diff says about one constraint key. */
  function LimitChange(before: Limits, after: Limits, limit: LimitKey, path: string): set<Change> {
    match limit
    case PatternLimit =>
      if before.pattern == after.pattern then {}
      else if after.pattern.None? then {Change(path, MinorBump, LimitRemoved(limit))}
      else if before.pattern.None? then {Change(path, MajorBump, LimitAdded(limit))}
      else {Change(path, MajorBump, PatternChanged)}
    case NumberLimit(key) =>
      var b, a := Get(before.numbers, key), Get(after.numbers, key);
      if b == a then {}
      else if a.None? then {Change(path, MinorBump, LimitRemoved(limit))}
      else if b.None? then {Change(path, MajorBump, LimitAdded(limit))}
      else if (if key in TIGHTENS_WHEN_INCREASED then a.value > b.value else a.value < b.value) then
        {Change(path, MajorBump, LimitTightened(limit))}
      else {Change(path, MinorBump, LimitLoosened(limit))}
  }

  function LimitChanges(before: Limits, after: Limits, path: string): set<Change> {
    set limit, c | limit in LIMIT_KEYS && c in LimitChange(before, after, limit, path) :: c
  }

  // ---------------------------------------------------------------- enums

  predicate PyIn(x: Scalar, values: seq<Scalar>) {
    exists y | y in values :: PyEq(x, y)
  }

  /** set(values): of values Python finds equal, the first stays. */
  function PySet(values: seq<Scalar>): (r: seq<Scalar>) {
    if values == [] then []
    else
      var init, last := PySet(values[..|values| - 1]), values[|values| - 1];
      if PyIn(last, init) then init else init + [last]
  }

  /** Making a set loses no value up to Python's equality and adds none. */
  lemma {:induction false} PyInPySet(x: Scalar, values: seq<Scalar>)
    ensures x in PySet(values) ==> x in values
    ensures PyIn(x, PySet(values)) <==> PyIn(x, values)
  {
    if values != [] {
      var front, last := values[..|values| - 1], values[|values| - 1];
      var init := PySet(front);
      PyInPySet(x, front);
      assert forall y :: y in values <==> y in front || y == last;
      assert forall y :: y in init + [last] <==> y in init || y == last;
      if PyIn(last, init) && PyEq(x, last) {
        var y :| y in init && PyEq(last, y);
        assert PyEq(x, y);
      }
    }
  }

  function EnumChanges(before: seq<Scalar>, after: seq<Scalar>, path: string): set<Change> {
    (set x | x in PySet(after) && !PyIn(x, before) :: Change(path, MinorBump, EnumValueAdded(x))) +
    (set x | x in PySet(before) && !PyIn(x, after) :: Change(path, MajorBump, EnumValueRemoved(x)))
  }

  // ---------------------------------------------------------------- union members

  /** A member's kind and, in a union of several objects, its discriminator tags. The
      source writes the key as text. */
  datatype MemberKey = MemberKey(kind: NodeKind, tags: set<(string, Scalar)>)

  function ObjectCount(members: seq<Node>): nat {
    if members == [] then 0
    else ObjectCount(members[..|members| - 1]) + (if KindOf(members[|members| - 1]) == ObjectK then 1 else 0)
  }

  /** The required const properties of an object member. */
  function Tags(member: Node): set<(string, Scalar)> {
    if !member.ObjectNode? then {}
    else
      set name | name in member.properties && member.properties[name].required
                 && member.properties[name].schema.ConstNode? ::
        (name, member.properties[name].schema.value)
  }

  function KeyOf(member: Node, tagged: bool): MemberKey {
    MemberKey(KindOf(member), if tagged then Tags(member) else {})
  }

  predicate Tagged(before: seq<Node>, after: seq<Node>) {
    ObjectCount(before) > 1 || ObjectCount(after) > 1
  }

  /** {_member_key(m, tagged): m for m in members}: of members with one key, the last stays. */
  function ByKey(members: seq<Node>, tagged: bool): (r: map<MemberKey, Node>)
    ensures forall k | k in r :: r[k] in members && KeyOf(r[k], tagged) == k
    ensures forall m | m in members :: KeyOf(m, tagged) in r
  {
    if members == [] then map[]
    else
      var last := members[|members| - 1];
      ByKey(members[..|members| - 1], tagged)[KeyOf(last, tagged) := last]
  }

  // ---------------------------------------------------------------- the diff

  /** A contract_version that gained exactly the version pattern, from an unpatterned
      string or from a literal the pattern matches. */
  predicate PatternAdopted(re: Regex, before: Node, after: Node) {
    && after == ScalarNode(StringT, Limits(map[], Some(VERSION_PATTERN)))
    && (|| before == ScalarNode(StringT, NO_LIMITS)
        || (before.ConstNode? && before.value.SStr? && re(VERSION_PATTERN, before.value.s)))
  }

  function SchemaChanges(re: Regex, before: Node, after: Node, path: string): set<Change>
    decreases before, 2
  {
    if path == "contract_version" && PatternAdopted(re, before, after) then
      {Change(path, MinorBump, VersionPatternAdopted)}
    else if KindOf(before) != KindOf(after) then
      {Change(path, MajorBump, TypeChanged)}
    else
      match before
      case ObjectNode(_) =>
        if after.MapNode? then {Change(path, MajorBump, AdditionalShapeChanged)}
        else
          ObjectChanges(re, before, after, path)
      case MapNode(additional) =>
        if after.ObjectNode? then {Change(path, MajorBump, AdditionalShapeChanged)}
        else SchemaChanges(re, additional, after.additional, path + "[*]")
      case ArrayNode(items, limits) =>
        SchemaChanges(re, items, after.items, path + "[]") + LimitChanges(limits, after.limits, path)
      case EnumNode(values) => EnumChanges(values, after.values, path)
      case ConstNode(value) =>
        if PyEq(value, after.value) then {} else {Change(path, MajorBump, ConstChanged)}
      case UnionNode(_, _) => UnionChanges(re, before, after, path)
      case ScalarNode(typ, limits) =>
        (if typ != after.typ then {Change(path, MajorBump, TypeChanged)} else {})
        + LimitChanges(limits, after.limits, path)
  }

  function ObjectChanges(re: Regex, before: Node, after: Node, path: string): set<Change>
    requires before.ObjectNode? && after.ObjectNode?
    decreases before, 1
  {
    FieldChangesOver(re, before, after, before.properties.Keys + after.properties.Keys, path)
  }

  function FieldChangesOver(re: Regex, before: Node, after: Node, names: set<string>, path: string): set<Change>
    requires before.ObjectNode? && after.ObjectNode?
    decreases before, 0, 1
  {
    set name, c | name in names && c in FieldChange(re, before, after, name, path) :: c
  }

  function UnionChanges(re: Regex, before: Node, after: Node, path: string): set<Change>
    requires before.UnionNode? && after.UnionNode?
    decreases before, 1
  {
    var tagged := Tagged(before.members, after.members);
    MemberChangesOver(re, before, after,
                      ByKey(before.members, tagged).Keys + ByKey(after.members, tagged).Keys, path)
  }

  function MemberChangesOver(re: Regex, before: Node, after: Node, keys: set<MemberKey>, path: string): set<Change>
    requires before.UnionNode? && after.UnionNode?
    decreases before, 0, 1
  {
    set key, c | key in keys && c in MemberChange(re, before, after, key, path) :: c
  }

  /** What the diff says about one property name. */
  function FieldChange(re: Regex, before: Node, after: Node, name: string, path: string): set<Change>
    requires before.ObjectNode? && after.ObjectNode?
    decreases before, 0, 0
  {
    var child := Child(path, name);
    if name !in before.properties then
      if name !in after.properties then {}
      else
        var required := after.properties[name].required;
        {Change(child, if required then MajorBump else MinorBump, FieldAdded(required))}
    else if name !in after.properties then {Change(child, MajorBump, FieldRemoved)}
    else
      var b, a := before.properties[name], after.properties[name];
      (if b.required == a.required then {}
       else {Change(child, if a.required then MajorBump else MinorBump, RequiredChanged(a.required))})
      + SchemaChanges(re, b.schema, a.schema, child)
  }

  /** What the diff says about one union member key. */
  function MemberChange(re: Regex, before: Node, after: Node, key: MemberKey, path: string): set<Change>
    requires before.UnionNode? && after.UnionNode?
    decreases before, 0, 0
  {
    var tagged := Tagged(before.members, after.members);
    var bs, as_ := ByKey(before.members, tagged), ByKey(after.members, tagged);
    if key !in bs then
      if key !in as_ then {} else {Change(path, MinorBump, MemberGained(key))}
    else if key !in as_ then {Change(path, MajorBump, MemberLost(key))}
    else SchemaChanges(re, bs[key], as_[key], path)
  }

  /** diff_fields at the root: two field maps. */
  function FieldsChanges(re: Regex, before: Fields, after: Fields): set<Change> {
    SchemaChanges(re, ObjectNode(before), ObjectNode(after), "")
  }

  predicate HasMajor(changes: set<Change>) {
    exists c | c in changes :: c.bump == MajorBump
  }

  function OverallBump(changes: set<Change>): Bump {
    if HasMajor(changes) then MajorBump
    else if changes != {} then MinorBump
    else NoBump
  }

  // ---------------------------------------------------------------- the loops

  lemma OneMoreField(re: Regex, before: Node, after: Node, names: set<string>, name: string, path: string)
    requires before.ObjectNode? && after.ObjectNode?
    ensures FieldChangesOver(re, before, after, names + {name}, path) ==
            FieldChangesOver(re, before, after, names, path) + FieldChange(re, before, after, name, path)
  {
  }

  lemma OneMoreMember(re: Regex, before: Node, after: Node, keys: set<MemberKey>, key: MemberKey, path: string)
    requires before.UnionNode? && after.UnionNode?
    ensures MemberChangesOver(re, before, after, keys + {key}, path) ==
            MemberChangesOver(re, before, after, keys, path) + MemberChange(re, before, after, key, path)
  {
  }

  /** Every change of two objects belongs to one of their fields. */
  lemma FieldBehind(re: Regex, before: Node, after: Node, path: string, c: Change) returns (name: string)
    requires before.ObjectNode? && after.ObjectNode?
    requires c in SchemaChanges(re, before, after, path)
    ensures name in before.properties.Keys + after.properties.Keys && c in FieldChange(re, before, after, name, path)
  {
    var names := before.properties.Keys + after.properties.Keys;
    assert SchemaChanges(re, before, after, path) == FieldChangesOver(re, before, after, names, path);
    name :| name in names && c in FieldChange(re, before, after, name, path);
  }

  lemma FieldReported(re: Regex, before: Node, after: Node, name: string, path: string)
    requires before.ObjectNode? && after.ObjectNode?
    requires name in before.properties.Keys + after.properties.Keys
    ensures FieldChange(re, before, after, name, path) <= SchemaChanges(re, before, after, path)
  {
    var names := before.properties.Keys + after.properties.Keys;
    assert SchemaChanges(re, before, after, path) == FieldChangesOver(re, before, after, names, path);
  }

  /** _diff_constraints */
  method DiffConstraints(before: Limits, after: Limits, path: string) returns (changes: seq<Change>)
    ensures Elements(changes) == LimitChanges(before, after, path)
  {
    changes := [];
    for i := 0 to |LIMIT_KEYS|
      invariant Elements(changes) ==
                set limit, c | limit in LIMIT_KEYS[..i] && c in LimitChange(before, after, limit, path) :: c
    {
      var limit := LIMIT_KEYS[i];
      assert LIMIT_KEYS[..i + 1] == LIMIT_KEYS[..i] + [limit];
      var found := [];
      match limit {
        case PatternLimit =>
          if before.pattern != after.pattern {
            if after.pattern.None? {
              found := [Change(path, MinorBump, LimitRemoved(limit))];
            } else if before.pattern.None? {
              found := [Change(path, MajorBump, LimitAdded(limit))];
            } else {
              found := [Change(path, MajorBump, PatternChanged)];
            }
          }
        case NumberLimit(key) =>
          var b, a := Get(before.numbers, key), Get(after.numbers, key);
          if b != a {
            if a.None? {
              found := [Change(path, MinorBump, LimitRemoved(limit))];
            } else if b.None? {
              found := [Change(path, MajorBump, LimitAdded(limit))];
            } else {
              var tightened := if key in TIGHTENS_WHEN_INCREASED then a.value > b.value else a.value < b.value;
              found := if tightened then [Change(path, MajorBump, LimitTightened(limit))]
                       else [Change(path, MinorBump, LimitLoosened(limit))];
            }
          }
      }
      assert Elements(found) == LimitChange(before, after, limit, path);
      ElementsOfConcat(changes, found);
      changes := changes + found;
    }
    assert LIMIT_KEYS[..|LIMIT_KEYS|] == LIMIT_KEYS;
  }

  /** _diff_enum */
  method DiffEnum(before: seq<Scalar>, after: seq<Scalar>, path: string) returns (changes: seq<Change>)
    ensures Elements(changes) == EnumChanges(before, after, path)
  {
    changes := [];
    var added, removed := PySet(after), PySet(before);
    for i := 0 to |added|
      invariant Elements(changes) ==
                set x | x in added[..i] && !PyIn(x, before) :: Change(path, MinorBump, EnumValueAdded(x))
    {
      assert added[..i + 1] == added[..i] + [added[i]];
      if !PyIn(added[i], before) {
        ElementsOfConcat(changes, [Change(path, MinorBump, EnumValueAdded(added[i]))]);
        changes := changes + [Change(path, MinorBump, EnumValueAdded(added[i]))];
      }
    }
    assert added[..|added|] == added;
    ghost var gained := Elements(changes);
    for i := 0 to |removed|
      invariant Elements(changes) == gained +
                set x | x in removed[..i] && !PyIn(x, after) :: Change(path, MajorBump, EnumValueRemoved(x))
    {
      assert removed[..i + 1] == removed[..i] + [removed[i]];
      if !PyIn(removed[i], after) {
        ElementsOfConcat(changes, [Change(path, MajorBump, EnumValueRemoved(removed[i]))]);
        changes := changes + [Change(path, MajorBump, EnumValueRemoved(removed[i]))];
      }
    }
    assert removed[..|removed|] == removed;
  }

  /** {_member_key(m, tagged): m for m in members} */
  method IndexMembers(members: seq<Node>, tagged: bool) returns (r: map<MemberKey, Node>)
    ensures r == ByKey(members, tagged)
  {
    r := map[];
    for i := 0 to |members|
      invariant r == ByKey(members[..i], tagged)
    {
      assert members[..i + 1][..i] == members[..i];
      r := r[KeyOf(members[i], tagged) := members[i]];
    }
    assert members[..|members|] == members;
  }

  /** _diff_union */
  method DiffUnion(re: Regex, before: Node, after: Node, path: string) returns (changes: seq<Change>)
    requires before.UnionNode? && after.UnionNode?
    ensures Elements(changes) == UnionChanges(re, before, after, path)
    decreases before, 0
  {
    var tagged := Tagged(before.members, after.members);
    var bs := IndexMembers(before.members, tagged);
    var as_ := IndexMembers(after.members, tagged);
    changes := [];
    ghost var done: set<MemberKey> := {};
    var todo := bs.Keys + as_.Keys;
    while todo != {}
      invariant done + todo == bs.Keys + as_.Keys
      invariant Elements(changes) == MemberChangesOver(re, before, after, done, path)
      decreases todo
    {
      var key :| key in todo;
      var found;
      if key !in bs {
        found := [Change(path, MinorBump, MemberGained(key))];
      } else if key !in as_ {
        found := [Change(path, MajorBump, MemberLost(key))];
      } else {
        found := DiffSchema(re, bs[key], as_[key], path);
      }
      OneMoreMember(re, before, after, done, key, path);
      ElementsOfConcat(changes, found);
      changes := changes + found;
      todo, done := todo - {key}, done + {key};
    }
    assert done == bs.Keys + as_.Keys;
  }

  /** diff_schema */
  method DiffSchema(re: Regex, before: Node, after: Node, path: string) returns (changes: seq<Change>)
    ensures Elements(changes) == SchemaChanges(re, before, after, path)
    decreases before, 1
  {
    if path == "contract_version" && PatternAdopted(re, before, after) {
      return [Change(path, MinorBump, VersionPatternAdopted)];
    }
    if KindOf(before) != KindOf(after) {
      return [Change(path, MajorBump, TypeChanged)];
    }
    match before {
      case ObjectNode(properties) =>
        if after.MapNode? {
          return [Change(path, MajorBump, AdditionalShapeChanged)];
        }
        changes := DiffFields(re, properties, after.properties, path);
      case MapNode(additional) =>
        if after.ObjectNode? {
          return [Change(path, MajorBump, AdditionalShapeChanged)];
        }
        changes := DiffSchema(re, additional, after.additional, path + "[*]");
      case ArrayNode(items, limits) =>
        var inner := DiffSchema(re, items, after.items, path + "[]");
        var outer := DiffConstraints(limits, after.limits, path);
        ElementsOfConcat(inner, outer);
        changes := inner + outer;
      case EnumNode(values) =>
        changes := DiffEnum(values, after.values, path);
      case ConstNode(value) =>
        changes := if PyEq(value, after.value) then [] else [Change(path, MajorBump, ConstChanged)];
      case UnionNode(_, _) =>
        changes := DiffUnion(re, before, after, path);
      case ScalarNode(typ, limits) =>
        changes := if typ != after.typ then [Change(path, MajorBump, TypeChanged)] else [];
        var more := DiffConstraints(limits, after.limits, path);
        ElementsOfConcat(changes, more);
        changes := changes + more;
    }
  }

  /** diff_fields */
  method DiffFields(re: Regex, before: Fields, after: Fields, path: string) returns (changes: seq<Change>)
    ensures Elements(changes) == ObjectChanges(re, ObjectNode(before), ObjectNode(after), path)
    decreases ObjectNode(before), 0
  {
    ghost var b, a := ObjectNode(before), ObjectNode(after);
    changes := [];
    ghost var done: set<string> := {};
    var todo := before.Keys + after.Keys;
    while todo != {}
      invariant done + todo == before.Keys + after.Keys
      invariant Elements(changes) == FieldChangesOver(re, b, a, done, path)
      decreases todo
    {
      var name :| name in todo;
      var child := Child(path, name);
      var found := [];
      if name !in before {
        var required := after[name].required;
        found := [Change(child, if required then MajorBump else MinorBump, FieldAdded(required))];
      } else if name !in after {
        found := [Change(child, MajorBump, FieldRemoved)];
      } else {
        if before[name].required != after[name].required {
          var became := after[name].required;
          found := [Change(child, if became then MajorBump else MinorBump, RequiredChanged(became))];
        }
        var inner := DiffSchema(re, before[name].schema, after[name].schema, child);
        ElementsOfConcat(found, inner);
        found := found + inner;
      }
      OneMoreField(re, b, a, done, name, path);
      ElementsOfConcat(changes, found);
      changes := changes + found;
      todo, done := todo - {name}, done + {name};
    }
    assert done == before.Keys + after.Keys;
  }
}
