/**
 The report of the diff, change by change and in both directions: which pairs of nodes are
 compared, at which path, what is reported of each pair, and with which label. Nothing here
 runs the diff: positions are reached by moves, and causes are read off the two nodes.
 */
module DiffReport {
  import opened Common
  import opened JsonValues
  import opened StructuralNodes
  import opened SchemaDiff
  import opened DiffCompleteness

  // ---------------------------------------------------------------- labels and causes

  /** MAJOR is what can reject data that was valid. */
  function LabelOf(what: What): Bump {
    match what
    case VersionPatternAdopted | EnumValueAdded(_) | MemberGained(_) | LimitRemoved(_) | LimitLoosened(_) => MinorBump
    case FieldAdded(required) => if required then MajorBump else MinorBump
    case RequiredChanged(nowRequired) => if nowRequired then MajorBump else MinorBump
    case _ => MajorBump
  }

  /** A floor that rose or a ceiling that fell. */
  predicate Narrower(key: NumberKey, was: real, now: real) {
    match key
    case Minimum | ExclusiveMinimum | MinLength | MinItems => now > was
    case Maximum | ExclusiveMaximum | MaxLength | MaxItems | MultipleOf => now < was
  }

  predicate Carries(limits: Limits, limit: LimitKey) {
    match limit
    case PatternLimit => limits.pattern.Some?
    case NumberLimit(key) => key in limits.numbers
  }

  predicate LimitCause(before: Limits, after: Limits, what: What) {
    match what
    case LimitAdded(limit) => Carries(after, limit) && !Carries(before, limit)
    case LimitRemoved(limit) => Carries(before, limit) && !Carries(after, limit)
    case LimitTightened(NumberLimit(key)) =>
      key in before.numbers && key in after.numbers && Narrower(key, before.numbers[key], after.numbers[key])
    case LimitLoosened(NumberLimit(key)) =>
      && key in before.numbers && key in after.numbers
      && before.numbers[key] != after.numbers[key] && !Narrower(key, before.numbers[key], after.numbers[key])
    case PatternChanged =>
      before.pattern.Some? && after.pattern.Some? && before.pattern.value != after.pattern.value
    case _ => false
  }

  /** The value is listed, and is not the twin of an earlier one. */
  predicate ListedFirst(x: Scalar, values: seq<Scalar>) {
    exists i | 0 <= i < |values| :: FirstAt(x, values, i)
  }

  predicate FirstAt(x: Scalar, values: seq<Scalar>, i: nat)
    requires i < |values|
  {
    values[i] == x && forall y | y in values[..i] :: !PyEq(x, y)
  }

  predicate Absent(x: Scalar, values: seq<Scalar>) {
    forall y | y in values :: !PyEq(x, y)
  }

  predicate HasKey(members: seq<Node>, tagged: bool, key: MemberKey) {
    exists m | m in members :: KeyOf(m, tagged) == key
  }

  predicate MapAgainstObject(b: Node, a: Node) {
    (b.MapNode? && a.ObjectNode?) || (b.ObjectNode? && a.MapNode?)
  }

  /** What can be said of two nodes themselves. */
  predicate Cause(b: Node, a: Node, what: What) {
    match what
    case TypeChanged => KindOf(b) != KindOf(a) || (b.ScalarNode? && a.ScalarNode? && b.typ != a.typ)
    case AdditionalShapeChanged => MapAgainstObject(b, a)
    case ConstChanged => b.ConstNode? && a.ConstNode? && !PyEq(b.value, a.value)
    case EnumValueAdded(x) => b.EnumNode? && a.EnumNode? && ListedFirst(x, a.values) && Absent(x, b.values)
    case EnumValueRemoved(x) => b.EnumNode? && a.EnumNode? && ListedFirst(x, b.values) && Absent(x, a.values)
    case MemberGained(key) =>
      && b.UnionNode? && a.UnionNode? && b.op == a.op
      && HasKey(a.members, Tagged(b.members, a.members), key) && !HasKey(b.members, Tagged(b.members, a.members), key)
    case MemberLost(key) =>
      && b.UnionNode? && a.UnionNode? && b.op == a.op
      && HasKey(b.members, Tagged(b.members, a.members), key) && !HasKey(a.members, Tagged(b.members, a.members), key)
    case _ =>
      || (b.ScalarNode? && a.ScalarNode? && LimitCause(b.limits, a.limits, what))
      || (b.ArrayNode? && a.ArrayNode? && LimitCause(b.limits, a.limits, what))
  }

  /** What can be said of one property of two object nodes, at its own path. */
  predicate FieldCause(b: Node, a: Node, name: string, what: What) {
    && b.ObjectNode? && a.ObjectNode?
    && match what
       case FieldAdded(required) =>
         name !in b.properties && name in a.properties && a.properties[name].required == required
       case FieldRemoved => name in b.properties && name !in a.properties
       case RequiredChanged(now) =>
         && name in b.properties && name in a.properties
         && b.properties[name].required != now && a.properties[name].required == now
       case _ => false
  }

  /** The root contract_version becomes a string with the version pattern and no more, from a
      bare string or from a literal the pattern matches. */
  predicate Adopts(re: Regex, b: Node, a: Node, path: string) {
    && path == "contract_version"
    && a.ScalarNode? && a.typ.StringT? && a.limits.numbers == map[] && a.limits.pattern == Some(VERSION_PATTERN)
    && match b
       case ScalarNode(typ, limits) => typ.StringT? && limits.numbers == map[] && limits.pattern.None?
       case ConstNode(c) => c.SStr? && re(VERSION_PATTERN, c.s)
       case _ => false
  }

  /** The change belongs to this pair of nodes. */
  predicate LocalChange(re: Regex, b: Node, a: Node, path: string, c: Change) {
    c.bump == LabelOf(c.what) &&
    if Adopts(re, b, a, path) then c.path == path && c.what.VersionPatternAdopted?
    else
      || (c.path == path && Cause(b, a, c.what))
      || (exists name | name in FieldNames(b) + FieldNames(a) ::
            c.path == Child(path, name) && FieldCause(b, a, name, c.what))
  }

  function FieldNames(node: Node): set<string> {
    if node.ObjectNode? then node.properties.Keys else {}
  }

  // ---------------------------------------------------------------- the compared pairs

  /** One move down both trees. */
  datatype Move = IntoField(name: string) | IntoItems | IntoValues | IntoMember(i: nat, j: nat)

  datatype Place = Place(b: Node, a: Node, path: string)

  /** The member a key names: no later one has it. */
  predicate LastWithKey(members: seq<Node>, i: nat, tagged: bool) {
    i < |members| && forall l | i < l < |members| :: KeyOf(members[l], tagged) != KeyOf(members[i], tagged)
  }

  /** Where one move leads: only what both sides have is compared, members by key. */
  function Moved(at: Place, move: Move): Option<Place> {
    var Place(b, a, path) := at;
    match move
    case IntoField(name) =>
      if b.ObjectNode? && a.ObjectNode? && name in b.properties && name in a.properties then
        Some(Place(b.properties[name].schema, a.properties[name].schema,
                   if path == "" then name else path + "." + name))
      else None
    case IntoItems => if b.ArrayNode? && a.ArrayNode? then Some(Place(b.items, a.items, path + "[]")) else None
    case IntoValues => if b.MapNode? && a.MapNode? then Some(Place(b.additional, a.additional, path + "[*]")) else None
    case IntoMember(i, j) =>
      if b.UnionNode? && a.UnionNode? && b.op == a.op && MembersMeet(b, a, i, j) then
        Some(Place(b.members[i], a.members[j], path))
      else None
  }

  predicate MembersMeet(b: Node, a: Node, i: nat, j: nat)
    requires b.UnionNode? && a.UnionNode?
  {
    var tagged := Tagged(b.members, a.members);
    && LastWithKey(b.members, i, tagged) && LastWithKey(a.members, j, tagged)
    && KeyOf(b.members[i], tagged) == KeyOf(a.members[j], tagged)
  }

  /** Where the moves lead; below an adopted version pattern nothing is compared. */
  function Reached(re: Regex, at: Place, moves: seq<Move>): Option<Place>
    decreases |moves|
  {
    if moves == [] then Some(at)
    else if Adopts(re, at.b, at.a, at.path) then None
    else
      match Moved(at, moves[0])
      case None => None
      case Some(next) => Reached(re, next, moves[1..])
  }

  predicate ReportedAt(re: Regex, at: Place, moves: seq<Move>, c: Change) {
    match Reached(re, at, moves)
    case None => false
    case Some(p) => LocalChange(re, p.b, p.a, p.path, c)
  }

  // ---------------------------------------------------------------- one pair of nodes

  lemma AdoptsIs(re: Regex, b: Node, a: Node, path: string)
    ensures Adopts(re, b, a, path) <==> path == "contract_version" && PatternAdopted(re, b, a)
  {
  }

  lemma {:induction false} PySetKeepsFirst(x: Scalar, values: seq<Scalar>)
    ensures x in PySet(values) <==> ListedFirst(x, values)
  {
    if values != [] {
      var front, last := values[..|values| - 1], values[|values| - 1];
      PySetKeepsFirst(x, front);
      PyInPySet(last, front);
      FirstOfMore(x, front, last);
      assert front + [last] == values;
    }
  }

  lemma FirstOfMore(x: Scalar, front: seq<Scalar>, last: Scalar)
    ensures ListedFirst(x, front + [last]) <==> ListedFirst(x, front) || (x == last && !PyIn(last, front))
  {
    var values := front + [last];
    assert values[..|front|] == front && values[|front|] == last;
    forall i | 0 <= i < |front|
      ensures FirstAt(x, values, i) <==> FirstAt(x, front, i)
    {
      assert values[..i] == front[..i];
    }
    assert FirstAt(x, values, |front|) <==> x == last && !PyIn(last, front);
    if ListedFirst(x, front) {
      var i :| 0 <= i < |front| && FirstAt(x, front, i);
      assert FirstAt(x, values, i);
    }
  }

  lemma EnumReported(b: seq<Scalar>, a: seq<Scalar>, path: string, c: Change)
    ensures c in EnumChanges(b, a, path)
            <==> c.path == path && c.bump == LabelOf(c.what) && Cause(EnumNode(b), EnumNode(a), c.what)
  {
    match c.what {
      case EnumValueAdded(x) => PySetKeepsFirst(x, a);
      case EnumValueRemoved(x) => PySetKeepsFirst(x, b);
      case _ =>
    }
  }

  lemma EveryLimitKey(limit: LimitKey)
    ensures limit in LIMIT_KEYS
  {
    match limit {
      case PatternLimit => assert LIMIT_KEYS[6] == limit;
      case NumberLimit(key) =>
        match key {
          case Minimum => assert LIMIT_KEYS[0] == limit;
          case ExclusiveMinimum => assert LIMIT_KEYS[1] == limit;
          case Maximum => assert LIMIT_KEYS[2] == limit;
          case ExclusiveMaximum => assert LIMIT_KEYS[3] == limit;
          case MinLength => assert LIMIT_KEYS[4] == limit;
          case MaxLength => assert LIMIT_KEYS[5] == limit;
          case MinItems => assert LIMIT_KEYS[7] == limit;
          case MaxItems => assert LIMIT_KEYS[8] == limit;
          case MultipleOf => assert LIMIT_KEYS[9] == limit;
        }
    }
  }

  function LimitOf(what: What): LimitKey {
    match what
    case LimitAdded(limit) => limit
    case LimitRemoved(limit) => limit
    case LimitTightened(limit) => limit
    case LimitLoosened(limit) => limit
    case _ => PatternLimit
  }

  /** The constraint changes, all ten keys: exactly what a cause stands for, with its label. */
  lemma LimitsReported(b: Limits, a: Limits, path: string, c: Change)
    ensures c in LimitChanges(b, a, path) <==> c.path == path && c.bump == LabelOf(c.what) && LimitCause(b, a, c.what)
  {
    EveryLimitKey(LimitOf(c.what));
    hide *;
    if c in LimitChanges(b, a, path) {
      var limit := LimitBehind(b, a, path, c);
      OneLimitReported(b, a, limit, path, c);
    }
    OneLimitReported(b, a, LimitOf(c.what), path, c);
    if c in LimitChange(b, a, LimitOf(c.what), path) {
      LimitIn(b, a, LimitOf(c.what), path, c);
    }
  }

  lemma LimitBehind(b: Limits, a: Limits, path: string, c: Change) returns (limit: LimitKey)
    requires c in LimitChanges(b, a, path)
    ensures c in LimitChange(b, a, limit, path)
  {
    limit :| limit in LIMIT_KEYS && c in LimitChange(b, a, limit, path);
  }

  lemma LimitIn(b: Limits, a: Limits, limit: LimitKey, path: string, c: Change)
    requires limit in LIMIT_KEYS && c in LimitChange(b, a, limit, path)
    ensures c in LimitChanges(b, a, path)
  {
  }

  lemma OneLimitReported(b: Limits, a: Limits, limit: LimitKey, path: string, c: Change)
    ensures c in LimitChange(b, a, limit, path)
            <==> c.path == path && c.bump == LabelOf(c.what) && LimitCause(b, a, c.what) && LimitOf(c.what) == limit
  {
  }

  /** A constraint change is MAJOR exactly when a pattern stands that did not stand so before,
      or some number key is new or narrower. */
  lemma LimitsMajorExact(b: Limits, a: Limits, path: string)
    ensures HasMajor(LimitChanges(b, a, path)) <==> LimitsNarrow(b, a)
  {
    if HasMajor(LimitChanges(b, a, path)) {
      var c :| c in LimitChanges(b, a, path) && c.bump == MajorBump;
      LimitsReported(b, a, path, c);
    }
    if a.pattern.Some? && a.pattern != b.pattern {
      var what := if b.pattern.None? then LimitAdded(PatternLimit) else PatternChanged;
      LimitsReported(b, a, path, Change(path, MajorBump, what));
    }
    forall key: NumberKey | key in a.numbers && (key !in b.numbers || Narrower(key, b.numbers[key], a.numbers[key]))
      ensures HasMajor(LimitChanges(b, a, path))
    {
      var what := if key in b.numbers then LimitTightened(NumberLimit(key)) else LimitAdded(NumberLimit(key));
      LimitsReported(b, a, path, Change(path, MajorBump, what));
    }
  }

  predicate LimitsNarrow(b: Limits, a: Limits) {
    || (a.pattern.Some? && a.pattern != b.pattern)
    || (exists key | key in a.numbers :: key !in b.numbers || Narrower(key, b.numbers[key], a.numbers[key]))
  }

  /** Dropping constraints, the others staying, is reported and never MAJOR. */
  lemma DroppedLimits(b: Limits, a: Limits, path: string)
    requires a.pattern.None? || a.pattern == b.pattern
    requires forall key | key in a.numbers :: key in b.numbers && a.numbers[key] == b.numbers[key]
    ensures OverallBump(LimitChanges(b, a, path)) == if b == a then NoBump else MinorBump
  {
    LimitsMajorExact(b, a, path);
    NoLimitChanges(b, a, path);
  }

  // ---------------------------------------------------------------- from the report to the diff

  lemma FieldReportedIn(re: Regex, b: Node, a: Node, name: string, path: string, c: Change)
    requires FieldCause(b, a, name, c.what) && c.path == Child(path, name) && c.bump == LabelOf(c.what)
    requires !Adopts(re, b, a, path)
    ensures c in SchemaChanges(re, b, a, path)
  {
    assert c in FieldChange(re, b, a, name, path);
    FieldReported(re, b, a, name, path);
  }

  lemma MemberReportedIn(re: Regex, b: Node, a: Node, key: MemberKey, path: string, c: Change)
    requires b.UnionNode? && a.UnionNode? && b.op == a.op && c in MemberChange(re, b, a, key, path)
    ensures c in SchemaChanges(re, b, a, path)
  {
    var tagged := Tagged(b.members, a.members);
    var keys := ByKey(b.members, tagged).Keys + ByKey(a.members, tagged).Keys;
    assert key in keys;
    assert c in MemberChangesOver(re, b, a, keys, path);
  }

  lemma {:induction false} KeyIndexed(members: seq<Node>, tagged: bool, key: MemberKey)
    ensures HasKey(members, tagged, key) <==> key in ByKey(members, tagged)
  {
    var r := ByKey(members, tagged);
    if key in r {
      assert r[key] in members;
    }
  }

  lemma MemberCauseIn(re: Regex, b: Node, a: Node, path: string, c: Change)
    requires c.path == path && Cause(b, a, c.what) && c.bump == LabelOf(c.what)
    requires c.what.MemberGained? || c.what.MemberLost?
    ensures c in SchemaChanges(re, b, a, path)
  {
    var tagged := Tagged(b.members, a.members);
    KeyIndexed(b.members, tagged, c.what.key);
    KeyIndexed(a.members, tagged, c.what.key);
    MemberReportedIn(re, b, a, c.what.key, path, c);
  }

  lemma LimitCauseIn(re: Regex, b: Node, a: Node, path: string, c: Change)
    requires (b.ScalarNode? && a.ScalarNode?) || (b.ArrayNode? && a.ArrayNode?)
    requires !Adopts(re, b, a, path)
    requires c.path == path && LimitCause(b.limits, a.limits, c.what) && c.bump == LabelOf(c.what)
    ensures c in SchemaChanges(re, b, a, path)
  {
    LimitsReported(b.limits, a.limits, path, c);
  }

  lemma CauseIn(re: Regex, b: Node, a: Node, path: string, c: Change)
    requires c.path == path && Cause(b, a, c.what) && c.bump == LabelOf(c.what) && !Adopts(re, b, a, path)
    ensures c in SchemaChanges(re, b, a, path)
  {
    match c.what {
      case MemberGained(_) => MemberCauseIn(re, b, a, path, c);
      case MemberLost(_) => MemberCauseIn(re, b, a, path, c);
      case EnumValueAdded(_) => EnumReported(b.values, a.values, path, c);
      case EnumValueRemoved(_) => EnumReported(b.values, a.values, path, c);
      case TypeChanged =>
      case AdditionalShapeChanged =>
      case ConstChanged =>
      case _ => LimitCauseIn(re, b, a, path, c);
    }
  }

  lemma LocalIn(re: Regex, b: Node, a: Node, path: string, c: Change)
    requires LocalChange(re, b, a, path, c)
    ensures c in SchemaChanges(re, b, a, path)
  {
    if !Adopts(re, b, a, path) {
      if c.path == path && Cause(b, a, c.what) {
        CauseIn(re, b, a, path, c);
      } else {
        var name :| name in FieldNames(b) + FieldNames(a)
                    && c.path == Child(path, name) && FieldCause(b, a, name, c.what);
        FieldReportedIn(re, b, a, name, path, c);
      }
    }
  }

  lemma {:induction false} KeptLastOfKey(members: seq<Node>, tagged: bool, i: nat)
    requires LastWithKey(members, i, tagged)
    ensures var k := KeyOf(members[i], tagged);
            k in ByKey(members, tagged) && ByKey(members, tagged)[k] == members[i]
  {
    var k := KeyOf(members[i], tagged);
    assert members[i] in members;
    var l := LastOfKey(members, tagged, k);
  }

  lemma MemberMoveIn(re: Regex, at: Place, i: nat, j: nat)
    requires Moved(at, IntoMember(i, j)).Some?
    ensures var next := Moved(at, IntoMember(i, j)).value;
            SchemaChanges(re, next.b, next.a, next.path) <= SchemaChanges(re, at.b, at.a, at.path)
  {
    var Place(b, a, path) := at;
    var tagged := Tagged(b.members, a.members);
    KeptLastOfKey(b.members, tagged, i);
    KeptLastOfKey(a.members, tagged, j);
    var k := KeyOf(b.members[i], tagged);
    forall c | c in SchemaChanges(re, b.members[i], a.members[j], path)
      ensures c in SchemaChanges(re, b, a, path)
    {
      MemberReportedIn(re, b, a, k, path, c);
    }
  }

  lemma FieldMoveIn(re: Regex, at: Place, name: string)
    requires Moved(at, IntoField(name)).Some?
    ensures var next := Moved(at, IntoField(name)).value;
            SchemaChanges(re, next.b, next.a, next.path) <= SchemaChanges(re, at.b, at.a, at.path)
  {
    FieldReported(re, at.b, at.a, name, at.path);
  }

  lemma MoveIn(re: Regex, at: Place, move: Move)
    requires Moved(at, move).Some? && !Adopts(re, at.b, at.a, at.path)
    ensures var next := Moved(at, move).value;
            SchemaChanges(re, next.b, next.a, next.path) <= SchemaChanges(re, at.b, at.a, at.path)
  {
    match move {
      case IntoField(name) => FieldMoveIn(re, at, name);
      case IntoItems =>
      case IntoValues =>
      case IntoMember(i, j) => MemberMoveIn(re, at, i, j);
    }
  }

  lemma {:induction false} ReportedIn(re: Regex, at: Place, moves: seq<Move>, c: Change)
    requires ReportedAt(re, at, moves, c)
    ensures c in SchemaChanges(re, at.b, at.a, at.path)
    decreases |moves|
  {
    if moves == [] {
      LocalIn(re, at.b, at.a, at.path, c);
    } else {
      MoveIn(re, at, moves[0]);
      ReportedIn(re, Moved(at, moves[0]).value, moves[1..], c);
    }
  }

  // ---------------------------------------------------------------- from the diff to the report

  /** The moves to the pair of nodes a change belongs to. */
  lemma {:induction false} Trace(re: Regex, b: Node, a: Node, path: string, c: Change) returns (moves: seq<Move>)
    requires c in SchemaChanges(re, b, a, path)
    ensures ReportedAt(re, Place(b, a, path), moves, c)
    decreases b, 1
  {
    moves := [];
    if !LocalChange(re, b, a, path, c) {
      var move := Descend(re, b, a, path, c);
      var next := Moved(Place(b, a, path), move).value;
      var rest := Trace(re, next.b, next.a, next.path, c);
      moves := [move] + rest;
      assert moves[1..] == rest;
    }
  }

  lemma {:induction false} Descend(re: Regex, b: Node, a: Node, path: string, c: Change) returns (move: Move)
    requires c in SchemaChanges(re, b, a, path) && !LocalChange(re, b, a, path, c)
    ensures !Adopts(re, b, a, path)
    ensures var next := Moved(Place(b, a, path), move);
            next.Some? && next.value.b < b && c in SchemaChanges(re, next.value.b, next.value.a, next.value.path)
  {
    match b {
      case ObjectNode(_) => move := DescendField(re, b, a, path, c);
      case UnionNode(_, _) => move := DescendMember(re, b, a, path, c);
      case ArrayNode(items, limits) =>
        move := IntoItems;
        if a.ArrayNode? { LimitsReported(limits, a.limits, path, c); }
      case MapNode(_) => move := IntoValues;
      case EnumNode(values) =>
        move := IntoItems;
        if a.EnumNode? { EnumReported(values, a.values, path, c); }
      case ScalarNode(_, limits) =>
        move := IntoItems;
        if a.ScalarNode? { LimitsReported(limits, a.limits, path, c); }
      case ConstNode(_) => move := IntoItems;
    }
  }

  lemma DescendField(re: Regex, b: Node, a: Node, path: string, c: Change) returns (move: Move)
    requires b.ObjectNode? && c in SchemaChanges(re, b, a, path) && !LocalChange(re, b, a, path, c)
    ensures !Adopts(re, b, a, path)
    ensures var next := Moved(Place(b, a, path), move);
            next.Some? && next.value.b < b && c in SchemaChanges(re, next.value.b, next.value.a, next.value.path)
  {
    assert KindOf(a) == ObjectK && !a.MapNode?;
    var name := FieldBehind(re, b, a, path, c);
    move := IntoField(name);
    assert c.path == Child(path, name) && c.bump == LabelOf(c.what) ==> !FieldCause(b, a, name, c.what);
  }

  lemma MemberBehind(re: Regex, b: Node, a: Node, path: string, c: Change) returns (key: MemberKey)
    requires b.UnionNode? && a.UnionNode? && c in UnionChanges(re, b, a, path)
    ensures c in MemberChange(re, b, a, key, path)
  {
    var tagged := Tagged(b.members, a.members);
    var keys := ByKey(b.members, tagged).Keys + ByKey(a.members, tagged).Keys;
    assert c in MemberChangesOver(re, b, a, keys, path);
    key :| key in keys && c in MemberChange(re, b, a, key, path);
  }

  /** A member change that is no gain or loss is one of the two members behind the key. */
  lemma MemberCompared(re: Regex, b: Node, a: Node, key: MemberKey, path: string, c: Change)
    requires b.UnionNode? && a.UnionNode? && b.op == a.op && c in MemberChange(re, b, a, key, path)
    requires !(c.path == path && c.bump == LabelOf(c.what) && Cause(b, a, c.what))
    ensures var tagged := Tagged(b.members, a.members);
            var bs, as_ := ByKey(b.members, tagged), ByKey(a.members, tagged);
            key in bs && key in as_ && c in SchemaChanges(re, bs[key], as_[key], path)
  {
    var tagged := Tagged(b.members, a.members);
    KeyIndexed(b.members, tagged, key);
    KeyIndexed(a.members, tagged, key);
  }

  lemma DescendMember(re: Regex, b: Node, a: Node, path: string, c: Change) returns (move: Move)
    requires b.UnionNode? && c in SchemaChanges(re, b, a, path) && !LocalChange(re, b, a, path, c)
    ensures !Adopts(re, b, a, path)
    ensures var next := Moved(Place(b, a, path), move);
            next.Some? && next.value.b < b && c in SchemaChanges(re, next.value.b, next.value.a, next.value.path)
  {
    assert KindOf(a) == KindOf(b);
    var tagged := Tagged(b.members, a.members);
    assert c in UnionChanges(re, b, a, path);
    hide SchemaChanges, ByKey, Cause;
    var k := MemberBehind(re, b, a, path, c);
    MemberCompared(re, b, a, k, path, c);
    var i := LastOfKey(b.members, tagged, k);
    var j := LastOfKey(a.members, tagged, k);
    move := IntoMember(i, j);
  }

  /** The whole diff: a change is reported exactly when moves lead to a pair of nodes it
      belongs to, at its path and with its label. */
  lemma ReportExact(re: Regex, b: Node, a: Node, path: string, c: Change)
    ensures c in SchemaChanges(re, b, a, path) <==> exists moves :: ReportedAt(re, Place(b, a, path), moves, c)
  {
    if c in SchemaChanges(re, b, a, path) {
      var moves := Trace(re, b, a, path, c);
    }
    forall moves | ReportedAt(re, Place(b, a, path), moves, c)
      ensures c in SchemaChanges(re, b, a, path)
    {
      ReportedIn(re, Place(b, a, path), moves, c);
    }
  }

  // ---------------------------------------------------------------- labels of single nodes

  /** A scalar is MAJOR exactly for a new type or a narrower constraint, but for the version
      pattern adopted. */
  lemma ScalarMajorExact(re: Regex, t: ScalarType, before: Limits, u: ScalarType, after: Limits, path: string)
    ensures var b, a := ScalarNode(t, before), ScalarNode(u, after);
            HasMajor(SchemaChanges(re, b, a, path))
            <==> !Adopts(re, b, a, path) && (t != u || LimitsNarrow(before, after))
  {
    var b, a := ScalarNode(t, before), ScalarNode(u, after);
    LimitsMajorExact(before, after, path);
    AdoptsIs(re, b, a, path);
    var retyped := if t != u then {Change(path, MajorBump, TypeChanged)} else {};
    MajorOfBoth(retyped, LimitChanges(before, after, path));
    assert t != u ==> Change(path, MajorBump, TypeChanged) in retyped;
  }

  /** An array is MAJOR exactly for a MAJOR change of its items or a narrower constraint. */
  lemma ArrayMajorExact(re: Regex, items: Node, before: Limits, items': Node, after: Limits, path: string)
    ensures HasMajor(SchemaChanges(re, ArrayNode(items, before), ArrayNode(items', after), path))
            <==> HasMajor(SchemaChanges(re, items, items', path + "[]")) || LimitsNarrow(before, after)
  {
    ArrayChanges(re, items, before, items', after, path);
    hide *;
    LimitsMajorExact(before, after, path);
    MajorOfBoth(SchemaChanges(re, items, items', path + "[]"), LimitChanges(before, after, path));
  }

  lemma ArrayChanges(re: Regex, items: Node, before: Limits, items': Node, after: Limits, path: string)
    ensures SchemaChanges(re, ArrayNode(items, before), ArrayNode(items', after), path)
         == SchemaChanges(re, items, items', path + "[]") + LimitChanges(before, after, path)
  {
    hide LimitChanges;
  }

  lemma MajorOfBoth(s: set<Change>, t: set<Change>)
    ensures HasMajor(s + t) <==> HasMajor(s) || HasMajor(t)
  {
  }

  /** contract_version takes on the version pattern, from a bare string or from a literal it
      matches: exactly one change, MINOR. From any other literal it is a MAJOR change. */
  lemma VersionPatternAdoption(re: Regex, literal: Scalar)
    ensures var patterned := ScalarNode(StringT, Limits(map[], Some(VERSION_PATTERN)));
            var adopted := Change("contract_version", MinorBump, VersionPatternAdopted);
            && SchemaChanges(re, ScalarNode(StringT, NO_LIMITS), patterned, "contract_version") == {adopted}
            && SchemaChanges(re, ConstNode(literal), patterned, "contract_version")
               == if literal.SStr? && re(VERSION_PATTERN, literal.s) then {adopted}
                  else {Change("contract_version", MajorBump, TypeChanged)}
  {
  }

  /** And nowhere else: at any other path the added pattern is MAJOR. */
  lemma VersionPatternElsewhere(re: Regex, path: string)
    requires path != "contract_version"
    ensures HasMajor(SchemaChanges(re, ScalarNode(StringT, NO_LIMITS),
                                   ScalarNode(StringT, Limits(map[], Some(VERSION_PATTERN))), path))
  {
    ScalarMajorExact(re, StringT, NO_LIMITS, StringT, Limits(map[], Some(VERSION_PATTERN)), path);
  }

  // ---------------------------------------------------------------- member keys

  /** A required property with this literal. */
  predicate HasTag(member: Node, name: string, value: Scalar) {
    && member.ObjectNode? && name in member.properties && member.properties[name].required
    && member.properties[name].schema == ConstNode(value)
  }

  predicate SeveralObjects(members: seq<Node>) {
    exists i, j | 0 <= i < j < |members| :: KindOf(members[i]) == ObjectK && KindOf(members[j]) == ObjectK
  }

  /** Members share a key exactly when they are of one kind and, in a union that has several
      objects on one side, carry the same required literals. */
  lemma KeysExact(ms: seq<Node>, ns: seq<Node>, m: Node, n: Node)
    ensures var tagged := Tagged(ms, ns);
            KeyOf(m, tagged) == KeyOf(n, tagged)
            <==> && KindOf(m) == KindOf(n)
                 && (SeveralObjects(ms) || SeveralObjects(ns) ==>
                       forall name, value :: HasTag(m, name, value) <==> HasTag(n, name, value))
  {
    ObjectsCounted(ms);
    ObjectsCounted(ns);
    TagsRead(m);
    TagsRead(n);
    hide *;
    TaggedIs(ms, ns);
    SameTags(m, n, Tagged(ms, ns));
  }

  lemma TaggedIs(ms: seq<Node>, ns: seq<Node>)
    ensures Tagged(ms, ns) <==> ObjectCount(ms) > 1 || ObjectCount(ns) > 1
  {
  }

  lemma SameTags(m: Node, n: Node, tagged: bool)
    requires forall name, value :: (name, value) in Tags(m) <==> HasTag(m, name, value)
    requires forall name, value :: (name, value) in Tags(n) <==> HasTag(n, name, value)
    ensures KeyOf(m, tagged) == KeyOf(n, tagged)
            <==> && KindOf(m) == KindOf(n)
                 && (tagged ==> forall name, value :: HasTag(m, name, value) <==> HasTag(n, name, value))
  {
    hide HasTag, KindOf, Tags;
    if forall name, value :: HasTag(m, name, value) <==> HasTag(n, name, value) {
      forall t | t in Tags(m) + Tags(n)
        ensures t in Tags(m) && t in Tags(n)
      {
        assert t == (t.0, t.1);
      }
      assert Tags(m) == Tags(n);
    }
  }

  lemma TagsRead(m: Node)
    ensures forall name, value :: (name, value) in Tags(m) <==> HasTag(m, name, value)
  {
  }

  lemma {:induction false} ObjectsCounted(members: seq<Node>)
    ensures ObjectCount(members) > 0 <==> exists i | 0 <= i < |members| :: KindOf(members[i]) == ObjectK
    ensures ObjectCount(members) > 1 <==> SeveralObjects(members)
  {
    if members != [] {
      var front, last := members[..|members| - 1], |members| - 1;
      ObjectsCounted(front);
      assert forall i | 0 <= i < last :: front[i] == members[i];
      if SeveralObjects(front) {
        var i, j :| 0 <= i < j < |front| && KindOf(front[i]) == ObjectK && KindOf(front[j]) == ObjectK;
        assert KindOf(members[i]) == ObjectK && KindOf(members[j]) == ObjectK;
      }
    }
  }
}
