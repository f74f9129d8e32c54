/**
 What scripts/catalog_format_snapshot.py records of a TOML tree, said of the tree itself:
 which tables it holds at which key path, with which keys, and which value types.

 A key path is a sequence of segments; the source writes it as text, quoting a key that is
 not bare and joining with dots.
 */
module CatalogTrees {

  datatype TomlType =
    | BooleanT | IntegerT | FloatT | StringT | DatetimeT | DateT | TimeT | ArrayT | TableT

  datatype Toml =
    | Leaf(leafType: TomlType)
    | Array(items: seq<Toml>)
    | Table(entries: seq<(string, Toml)>)

  /** _toml_type */
  function TypeOf(v: Toml): TomlType {
    match v
    case Leaf(t) => t
    case Array(_) => ArrayT
    case Table(_) => TableT
  }

  datatype Base = Named(key: string) | Star

  /** A key, or the * of a map keyed by data, and how many [] follow it. */
  datatype Segment = Segment(base: Base, brackets: nat)

  type Path = seq<Segment>

  // ---------------------------------------------------------------- maps keyed by data

  datatype PatternSegment = DataKey | AnyKey | OneOf(names: set<string>) | Literal(name: string)

  type Pattern = seq<PatternSegment>

  /** _segment_matches */
  predicate SegmentMatches(p: PatternSegment, s: Segment) {
    match p
    case DataKey => true
    case AnyKey => true
    case OneOf(names) => s.brackets == 0 && s.base.Named? && s.base.key in names
    case Literal(name) => s.brackets == 0 && s.base == Named(name)
  }

  /** The pattern says something about this key of a table at the container path. */
  predicate Applies(pattern: Pattern, container: Path, key: string, isTable: bool) {
    && |pattern| > |container|
    && (|pattern| == |container| + 1 || isTable)
    && (forall i | 0 <= i < |container| :: SegmentMatches(pattern[i], container[i]))
    && SegmentMatches(pattern[|container|], Segment(Named(key), 0))
  }

  /** A data key: some pattern says so and none names it. */
  predicate IsDataKey(patterns: seq<Pattern>, container: Path, key: string, isTable: bool) {
    && (exists p: Pattern | p in patterns :: Applies(p, container, key, isTable) && p[|container|].DataKey?)
    && (forall p: Pattern | p in patterns && Applies(p, container, key, isTable) :: p[|container|].DataKey?)
  }

  function SegmentFor(patterns: seq<Pattern>, container: Path, key: string, isTable: bool): Segment {
    Segment(if IsDataKey(patterns, container, key, isTable) then Star else Named(key), 0)
  }

  function KeyPath(patterns: seq<Pattern>, container: Path, entry: (string, Toml)): Path {
    container + [SegmentFor(patterns, container, entry.0, entry.1.Table?)]
  }

  /** The path of an array's items. */
  function ItemsPath(path: Path): Path
    requires path != []
  {
    var last := path[|path| - 1];
    path[..|path| - 1] + [last.(brackets := last.brackets + 1)]
  }

  // ---------------------------------------------------------------- the tables of a tree

  /** One table: where it is and the key paths it holds. */
  datatype Visit = Visit(container: Path, keys: set<Path>)

  function KeysOf(patterns: seq<Pattern>, entries: seq<(string, Toml)>, container: Path): set<Path> {
    set e | e in entries :: KeyPath(patterns, container, e)
  }

  function TablesOf(patterns: seq<Pattern>, table: Toml, container: Path): seq<Visit>
    requires table.Table?
    decreases table, 1
  {
    [Visit(container, KeysOf(patterns, table.entries, container))]
    + EntryTables(patterns, table, |table.entries|, container)
  }

  /** The tables below the first n entries. */
  function EntryTables(patterns: seq<Pattern>, table: Toml, n: nat, container: Path): seq<Visit>
    requires table.Table? && n <= |table.entries|
    decreases table, 0, n
  {
    if n == 0 then []
    else
      var e := table.entries[n - 1];
      EntryTables(patterns, table, n - 1, container) + ValueTables(patterns, e.1, KeyPath(patterns, container, e))
  }

  function ValueTables(patterns: seq<Pattern>, value: Toml, path: Path): seq<Visit>
    requires path != []
    decreases value, 2
  {
    match value
    case Leaf(_) => []
    case Table(_) => TablesOf(patterns, value, path)
    case Array(_) => ItemTables(patterns, value, |value.items|, ItemsPath(path))
  }

  /** The tables in the first n items. */
  function ItemTables(patterns: seq<Pattern>, arr: Toml, n: nat, itemsPath: Path): seq<Visit>
    requires arr.Array? && n <= |arr.items| && itemsPath != []
    decreases arr, 0, n
  {
    if n == 0 then []
    else
      ItemTables(patterns, arr, n - 1, itemsPath) + ValueTables(patterns, arr.items[n - 1], itemsPath)
  }

  // ---------------------------------------------------------------- the value types of a tree

  function TableTypes(patterns: seq<Pattern>, table: Toml, container: Path): set<(Path, TomlType)>
    requires table.Table?
    decreases table, 1
  {
    EntryTypes(patterns, table, |table.entries|, container)
  }

  function EntryTypes(patterns: seq<Pattern>, table: Toml, n: nat, container: Path): set<(Path, TomlType)>
    requires table.Table? && n <= |table.entries|
    decreases table, 0, n
  {
    if n == 0 then {}
    else
      var e := table.entries[n - 1];
      EntryTypes(patterns, table, n - 1, container) + ValueTypes(patterns, e.1, KeyPath(patterns, container, e))
  }

  function ValueTypes(patterns: seq<Pattern>, value: Toml, path: Path): set<(Path, TomlType)>
    requires path != []
    decreases value, 2
  {
    {(path, TypeOf(value))}
    + (match value
       case Leaf(_) => {}
       case Table(_) => TableTypes(patterns, value, path)
       case Array(_) => ItemTypes(patterns, value, |value.items|, ItemsPath(path)))
  }

  function ItemTypes(patterns: seq<Pattern>, arr: Toml, n: nat, itemsPath: Path): set<(Path, TomlType)>
    requires arr.Array? && n <= |arr.items| && itemsPath != []
    decreases arr, 0, n
  {
    if n == 0 then {}
    else
      ItemTypes(patterns, arr, n - 1, itemsPath) + ValueTypes(patterns, arr.items[n - 1], itemsPath)
  }

  // ---------------------------------------------------------------- counting visits

  /** How many tables were walked at the path. */
  function CountAt(log: seq<Visit>, path: Path): nat {
    if log == [] then 0
    else CountAt(log[..|log| - 1], path) + (if log[|log| - 1].container == path then 1 else 0)
  }

  /** How many tables hold the key path. */
  function CountHolding(log: seq<Visit>, path: Path): nat {
    if log == [] then 0
    else CountHolding(log[..|log| - 1], path) + (if path in log[|log| - 1].keys then 1 else 0)
  }

  lemma CountAppend(log: seq<Visit>, v: Visit, path: Path)
    ensures CountAt(log + [v], path) == CountAt(log, path) + (if v.container == path then 1 else 0)
    ensures CountHolding(log + [v], path) == CountHolding(log, path) + (if path in v.keys then 1 else 0)
  {
    assert (log + [v])[..|log|] == log;
  }

  lemma {:induction false} CountGainsKey(log: seq<Visit>, n: nat, key: Path, path: Path)
    requires n < |log| && key !in log[n].keys
    ensures var more := log[n := Visit(log[n].container, log[n].keys + {key})];
            && CountAt(more, path) == CountAt(log, path)
            && CountHolding(more, path) == CountHolding(log, path) + (if path == key then 1 else 0)
  {
    var last := |log| - 1;
    var more := log[n := Visit(log[n].container, log[n].keys + {key})];
    if n == last {
      assert more[..last] == log[..last];
    } else {
      assert more[..last] == log[..last][n := Visit(log[n].container, log[n].keys + {key})];
      CountGainsKey(log[..last], n, key, path);
    }
  }

  /** Every key path of a visit is one segment below its container. */
  predicate Rooted(log: seq<Visit>) {
    forall v, p | v in log && p in v.keys :: p != [] && p[..|p| - 1] == v.container
  }

  /** The required flag is exact: as many tables hold a key path as were walked at its
      container exactly when every table there holds it. */
  lemma {:induction false} CountsAgree(log: seq<Visit>, path: Path)
    requires Rooted(log) && path != []
    ensures CountHolding(log, path) <= CountAt(log, path[..|path| - 1])
    ensures CountHolding(log, path) == CountAt(log, path[..|path| - 1])
            <==> forall v | v in log && v.container == path[..|path| - 1] :: path in v.keys
  {
    if log != [] {
      var front, last := log[..|log| - 1], log[|log| - 1];
      assert forall v :: v in log <==> v in front || v == last;
      CountsAgree(front, path);
      assert path in last.keys ==> last.container == path[..|path| - 1];
    }
  }

  lemma {:induction false} HeldSomewhere(log: seq<Visit>, path: Path)
    ensures CountHolding(log, path) > 0 <==> exists v | v in log :: path in v.keys
    ensures CountAt(log, path) > 0 <==> exists v | v in log :: v.container == path
  {
    if log != [] {
      var front, last := log[..|log| - 1], log[|log| - 1];
      assert forall v :: v in log <==> v in front || v == last;
      HeldSomewhere(front, path);
    }
  }

  // ---------------------------------------------------------------- facts about trees

  lemma {:induction false} TablesRooted(patterns: seq<Pattern>, table: Toml, container: Path)
    requires table.Table?
    ensures Rooted(TablesOf(patterns, table, container))
    decreases table, 1
  {
    forall p | p in KeysOf(patterns, table.entries, container)
      ensures p != [] && p[..|p| - 1] == container
    {
    }
    EntriesRooted(patterns, table, |table.entries|, container);
  }

  lemma {:induction false} EntriesRooted(patterns: seq<Pattern>, table: Toml, n: nat, container: Path)
    requires table.Table? && n <= |table.entries|
    ensures Rooted(EntryTables(patterns, table, n, container))
    decreases table, 0, n
  {
    if n > 0 {
      EntriesRooted(patterns, table, n - 1, container);
      ValueRooted(patterns, table.entries[n - 1].1, KeyPath(patterns, container, table.entries[n - 1]));
    }
  }

  lemma {:induction false} ValueRooted(patterns: seq<Pattern>, value: Toml, path: Path)
    requires path != []
    ensures Rooted(ValueTables(patterns, value, path))
    decreases value, 2
  {
    match value {
      case Leaf(_) =>
      case Table(_) => TablesRooted(patterns, value, path);
      case Array(_) => ItemsRooted(patterns, value, |value.items|, ItemsPath(path));
    }
  }

  lemma {:induction false} ItemsRooted(patterns: seq<Pattern>, arr: Toml, n: nat, itemsPath: Path)
    requires arr.Array? && n <= |arr.items| && itemsPath != []
    ensures Rooted(ItemTables(patterns, arr, n, itemsPath))
    decreases arr, 0, n
  {
    if n > 0 {
      ItemsRooted(patterns, arr, n - 1, itemsPath);
      ValueRooted(patterns, arr.items[n - 1], itemsPath);
    }
  }

  predicate IsItems(path: Path) {
    path != [] && path[|path| - 1].brackets > 0
  }

  predicate IsCollapsed(path: Path) {
    path != [] && path[|path| - 1] == Segment(Star, 0)
  }

  predicate Held(log: seq<Visit>, path: Path) {
    exists v | v in log :: path in v.keys
  }

  /** A typed path is an array's items, or a key that some table holds. */
  predicate ItemsOrHeld(types: set<(Path, TomlType)>, log: seq<Visit>) {
    forall t | t in types :: IsItems(t.0) || Held(log, t.0)
  }

  lemma ItemsOrHeldJoin(s: set<(Path, TomlType)>, t: set<(Path, TomlType)>, a: seq<Visit>, b: seq<Visit>)
    requires ItemsOrHeld(s, a) && ItemsOrHeld(t, b)
    ensures ItemsOrHeld(s + t, a + b)
  {
    assert forall v :: v in a + b <==> v in a || v in b;
  }

  lemma {:induction false} TableTypesHeld(patterns: seq<Pattern>, table: Toml, container: Path)
    requires table.Table?
    ensures ItemsOrHeld(TableTypes(patterns, table, container), TablesOf(patterns, table, container))
    decreases table, 1
  {
    EntryTypesHeld(patterns, table, |table.entries|, container);
  }

  lemma {:induction false} EntryTypesHeld(patterns: seq<Pattern>, table: Toml, n: nat, container: Path)
    requires table.Table? && n <= |table.entries|
    ensures ItemsOrHeld(EntryTypes(patterns, table, n, container),
                        [Visit(container, KeysOf(patterns, table.entries, container))]
                        + EntryTables(patterns, table, n, container))
    decreases table, 0, n
  {
    if n > 0 {
      var here := [Visit(container, KeysOf(patterns, table.entries, container))];
      var e := table.entries[n - 1];
      var path := KeyPath(patterns, container, e);
      EntryTypesHeld(patterns, table, n - 1, container);
      ValueTypesHeld(patterns, e.1, path);
      assert e in table.entries && path in here[0].keys;
      var before := here + EntryTables(patterns, table, n - 1, container);
      var inner := ValueTables(patterns, e.1, path);
      ItemsOrHeldJoin(EntryTypes(patterns, table, n - 1, container),
                      ValueTypes(patterns, e.1, path) - {(path, TypeOf(e.1))},
                      before, inner);
      assert before + inner == here + EntryTables(patterns, table, n, container);
      assert here[0] in before + inner;
      assert Held(before + inner, path);
    }
  }

  lemma {:induction false} ValueTypesHeld(patterns: seq<Pattern>, value: Toml, path: Path)
    requires path != []
    ensures ItemsOrHeld(ValueTypes(patterns, value, path) - {(path, TypeOf(value))}, ValueTables(patterns, value, path))
    decreases value, 2
  {
    match value {
      case Leaf(_) =>
      case Table(_) => TableTypesHeld(patterns, value, path);
      case Array(_) => ItemTypesHeld(patterns, value, |value.items|, ItemsPath(path));
    }
  }

  lemma {:induction false} ItemTypesHeld(patterns: seq<Pattern>, arr: Toml, n: nat, itemsPath: Path)
    requires arr.Array? && n <= |arr.items| && IsItems(itemsPath)
    ensures ItemsOrHeld(ItemTypes(patterns, arr, n, itemsPath), ItemTables(patterns, arr, n, itemsPath))
    decreases arr, 0, n
  {
    if n > 0 {
      var item := arr.items[n - 1];
      ItemTypesHeld(patterns, arr, n - 1, itemsPath);
      var types, tables := ItemTypes(patterns, arr, n - 1, itemsPath), ItemTables(patterns, arr, n - 1, itemsPath);
      ValueTypesHeld(patterns, item, itemsPath);
      ItemsOrHeldJoin(types, ValueTypes(patterns, item, itemsPath), tables, ValueTables(patterns, item, itemsPath));
    }
  }
}
