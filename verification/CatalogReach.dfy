/**
 What the recorder records, said by reachability: steps into entries and items lead from a
 file to each of its values, and spell the key path the value is recorded at. Nothing here
 walks a tree in the recorder's way.
 */
module CatalogReach {
  import opened Common
  import opened CatalogTrees
  import opened CatalogFormat

  // ---------------------------------------------------------------- steps

  datatype Step = Entry(i: nat) | Item(i: nat)

  /** The value the steps lead to. */
  function Reach(v: Toml, steps: seq<Step>): Option<Toml>
    decreases |steps|
  {
    if steps == [] then Some(v)
    else
      match steps[0]
      case Entry(i) =>
        if v.Table? && i < |v.entries| then Reach(v.entries[i].1, steps[1..]) else None
      case Item(i) =>
        if v.Array? && i < |v.items| then Reach(v.items[i], steps[1..]) else None
  }

  predicate ReachesTable(v: Toml, steps: seq<Step>) {
    var r := Reach(v, steps);
    r.Some? && r.value.Table?
  }

  /** A key of a table at the path: itself, or the star of a map keyed by data. */
  function Below(patterns: seq<Pattern>, path: Path, entry: (string, Toml)): Path {
    path + [Segment(if IsDataKey(patterns, path, entry.0, entry.1.Table?) then Star else Named(entry.0), 0)]
  }

  /** One more pair of brackets. */
  function Bracketed(path: Path): Path {
    if path == [] then []
    else path[..|path| - 1] + [Segment(path[|path| - 1].base, path[|path| - 1].brackets + 1)]
  }

  /** The key path the steps spell, from a value at the given path. */
  function PathOf(patterns: seq<Pattern>, v: Toml, path: Path, steps: seq<Step>): Path
    requires Reach(v, steps).Some?
    decreases |steps|
  {
    if steps == [] then path
    else
      match steps[0]
      case Entry(i) => PathOf(patterns, v.entries[i].1, Below(patterns, path, v.entries[i]), steps[1..])
      case Item(i) => PathOf(patterns, v.items[i], Bracketed(path), steps[1..])
  }

  // ---------------------------------------------------------------- types

  /** The steps lead to a value of this type at this key path. */
  predicate Meets(patterns: seq<Pattern>, v: Toml, path: Path, steps: seq<Step>, t: (Path, TomlType)) {
    var r := Reach(v, steps);
    r.Some? && t == (PathOf(patterns, v, path, steps), TypeOf(r.value))
  }

  lemma EntryStep(patterns: seq<Pattern>, v: Toml, path: Path, i: nat, rest: seq<Step>, t: (Path, TomlType))
    requires v.Table? && i < |v.entries|
    ensures Meets(patterns, v, path, [Entry(i)] + rest, t)
            <==> Meets(patterns, v.entries[i].1, KeyPath(patterns, path, v.entries[i]), rest, t)
  {
    assert ([Entry(i)] + rest)[1..] == rest;
  }

  lemma ItemStep(patterns: seq<Pattern>, v: Toml, path: Path, i: nat, rest: seq<Step>, t: (Path, TomlType))
    requires v.Array? && i < |v.items| && path != []
    ensures Meets(patterns, v, path, [Item(i)] + rest, t)
            <==> Meets(patterns, v.items[i], ItemsPath(path), rest, t)
  {
    assert ([Item(i)] + rest)[1..] == rest;
  }

  lemma {:induction false} FindValue(patterns: seq<Pattern>, v: Toml, path: Path, t: (Path, TomlType))
    returns (steps: seq<Step>)
    requires path != [] && t in ValueTypes(patterns, v, path)
    ensures Meets(patterns, v, path, steps, t)
    decreases v, 2
  {
    steps := [];
    if t != (path, TypeOf(v)) {
      if v.Table? {
        steps := FindEntry(patterns, v, |v.entries|, path, t);
      } else {
        steps := FindItem(patterns, v, |v.items|, path, t);
      }
    }
  }

  lemma {:induction false} FindEntry(patterns: seq<Pattern>, table: Toml, n: nat, path: Path, t: (Path, TomlType))
    returns (steps: seq<Step>)
    requires table.Table? && n <= |table.entries| && t in EntryTypes(patterns, table, n, path)
    ensures steps != [] && Meets(patterns, table, path, steps, t)
    decreases table, 0, n
  {
    var e := table.entries[n - 1];
    if t in EntryTypes(patterns, table, n - 1, path) {
      steps := FindEntry(patterns, table, n - 1, path, t);
    } else {
      var rest := FindValue(patterns, e.1, KeyPath(patterns, path, e), t);
      EntryStep(patterns, table, path, n - 1, rest, t);
      steps := [Entry(n - 1)] + rest;
    }
  }

  lemma {:induction false} FindItem(patterns: seq<Pattern>, arr: Toml, n: nat, path: Path, t: (Path, TomlType))
    returns (steps: seq<Step>)
    requires arr.Array? && path != [] && n <= |arr.items| && t in ItemTypes(patterns, arr, n, ItemsPath(path))
    ensures Meets(patterns, arr, path, steps, t)
    decreases arr, 0, n
  {
    if t in ItemTypes(patterns, arr, n - 1, ItemsPath(path)) {
      steps := FindItem(patterns, arr, n - 1, path, t);
    } else {
      var rest := FindValue(patterns, arr.items[n - 1], ItemsPath(path), t);
      ItemStep(patterns, arr, path, n - 1, rest, t);
      steps := [Item(n - 1)] + rest;
    }
  }

  lemma {:induction false} EntryTypesHave(patterns: seq<Pattern>, table: Toml, i: nat, n: nat, path: Path)
    requires table.Table? && i < n <= |table.entries|
    ensures ValueTypes(patterns, table.entries[i].1, KeyPath(patterns, path, table.entries[i]))
         <= EntryTypes(patterns, table, n, path)
    decreases n
  {
    if i < n - 1 {
      EntryTypesHave(patterns, table, i, n - 1, path);
    }
  }

  lemma {:induction false} ItemTypesHave(patterns: seq<Pattern>, arr: Toml, i: nat, n: nat, itemsPath: Path)
    requires arr.Array? && i < n <= |arr.items| && itemsPath != []
    ensures ValueTypes(patterns, arr.items[i], itemsPath) <= ItemTypes(patterns, arr, n, itemsPath)
    decreases n
  {
    if i < n - 1 {
      ItemTypesHave(patterns, arr, i, n - 1, itemsPath);
    }
  }

  lemma {:induction false} ValueMet(patterns: seq<Pattern>, v: Toml, path: Path, steps: seq<Step>, t: (Path, TomlType))
    requires path != [] && Meets(patterns, v, path, steps, t)
    ensures t in ValueTypes(patterns, v, path)
    decreases |steps|, 1
  {
    if steps != [] {
      if v.Table? {
        EntryMet(patterns, v, path, steps, t);
      } else {
        var i, rest := steps[0].i, steps[1..];
        assert steps == [Item(i)] + rest;
        ItemStep(patterns, v, path, i, rest, t);
        ValueMet(patterns, v.items[i], ItemsPath(path), rest, t);
        ItemTypesHave(patterns, v, i, |v.items|, ItemsPath(path));
      }
    }
  }

  lemma {:induction false} EntryMet(patterns: seq<Pattern>, table: Toml, path: Path, steps: seq<Step>,
                                    t: (Path, TomlType))
    requires table.Table? && steps != [] && Meets(patterns, table, path, steps, t)
    ensures t in TableTypes(patterns, table, path)
    decreases |steps|, 0
  {
    var i, rest := steps[0].i, steps[1..];
    assert steps == [Entry(i)] + rest;
    EntryStep(patterns, table, path, i, rest, t);
    ValueMet(patterns, table.entries[i].1, KeyPath(patterns, path, table.entries[i]), rest, t);
    EntryTypesHave(patterns, table, i, |table.entries|, path);
  }

  /** The types recorded of a table are those of the values below it, at the paths the steps
      to them spell. */
  lemma TypesReached(patterns: seq<Pattern>, table: Toml, path: Path, t: (Path, TomlType))
    requires table.Table?
    ensures t in TableTypes(patterns, table, path)
            <==> exists steps :: steps != [] && Meets(patterns, table, path, steps, t)
  {
    if t in TableTypes(patterns, table, path) {
      var steps := FindEntry(patterns, table, |table.entries|, path, t);
    }
    forall steps | steps != [] && Meets(patterns, table, path, steps, t)
      ensures t in TableTypes(patterns, table, path)
    {
      EntryMet(patterns, table, path, steps, t);
    }
  }

  // ---------------------------------------------------------------- tables

  /** The steps to every table of a value, in the order they are met. */
  function TableRoutes(v: Toml): seq<seq<Step>>
    decreases v, 1
  {
    match v
    case Leaf(_) => []
    case Table(_) => [[]] + EntryRoutes(v, |v.entries|)
    case Array(_) => ItemRoutes(v, |v.items|)
  }

  function EntryRoutes(v: Toml, n: nat): seq<seq<Step>>
    requires v.Table? && n <= |v.entries|
    decreases v, 0, n
  {
    if n == 0 then [] else EntryRoutes(v, n - 1) + Prefixed(Entry(n - 1), TableRoutes(v.entries[n - 1].1))
  }

  function ItemRoutes(v: Toml, n: nat): seq<seq<Step>>
    requires v.Array? && n <= |v.items|
    decreases v, 0, n
  {
    if n == 0 then [] else ItemRoutes(v, n - 1) + Prefixed(Item(n - 1), TableRoutes(v.items[n - 1]))
  }

  function Prefixed(step: Step, routes: seq<seq<Step>>): seq<seq<Step>> {
    seq(|routes|, i requires 0 <= i < |routes| => [step] + routes[i])
  }

  predicate Distinct<T(==)>(s: seq<T>) {
    forall i, j | 0 <= i < j < |s| :: s[i] != s[j]
  }

  lemma PrefixedIs(step: Step, routes: seq<seq<Step>>)
    requires Distinct(routes)
    ensures Distinct(Prefixed(step, routes))
    ensures forall s: seq<Step> :: s in Prefixed(step, routes) <==> s != [] && s[0] == step && s[1..] in routes
  {
    var more := Prefixed(step, routes);
    forall i, j | 0 <= i < j < |more|
      ensures more[i] != more[j]
    {
      assert more[i][1..] == routes[i] && more[j][1..] == routes[j];
    }
    forall s
      ensures s in more <==> s != [] && s[0] == step && s[1..] in routes
    {
      if s in more {
        var i :| 0 <= i < |more| && more[i] == s;
        assert s[1..] == routes[i];
      }
      if s != [] && s[0] == step && s[1..] in routes {
        var i :| 0 <= i < |routes| && routes[i] == s[1..];
        assert more[i] == [step] + s[1..] == s;
      }
    }
  }

  lemma JoinDistinct<T>(a: seq<T>, b: seq<T>)
    requires Distinct(a) && Distinct(b) && forall x | x in a :: x !in b
    ensures Distinct(a + b)
    ensures forall x :: x in a + b <==> x in a || x in b
  {
    forall i, j | 0 <= i < j < |a + b|
      ensures (a + b)[i] != (a + b)[j]
    {
      if i < |a| <= j {
        assert (a + b)[i] in a && (a + b)[j] in b;
      }
    }
  }

  /** Each table once, and nothing else. */
  lemma {:induction false} RoutesExact(v: Toml)
    ensures Distinct(TableRoutes(v))
    ensures forall s: seq<Step> :: s in TableRoutes(v) <==> ReachesTable(v, s)
    decreases v, 1
  {
    match v {
      case Leaf(_) =>
      case Table(_) =>
        EntryRoutesExact(v, |v.entries|);
        JoinDistinct([[]], EntryRoutes(v, |v.entries|));
      case Array(_) => ItemRoutesExact(v, |v.items|);
    }
  }

  lemma {:induction false} EntryRoutesExact(v: Toml, n: nat)
    requires v.Table? && n <= |v.entries|
    ensures Distinct(EntryRoutes(v, n))
    ensures forall s: seq<Step> :: s in EntryRoutes(v, n)
              <==> s != [] && s[0].Entry? && s[0].i < n && ReachesTable(v, s)
    decreases v, 0, n
  {
    if n > 0 {
      EntryRoutesExact(v, n - 1);
      RoutesExact(v.entries[n - 1].1);
      PrefixedIs(Entry(n - 1), TableRoutes(v.entries[n - 1].1));
      JoinDistinct(EntryRoutes(v, n - 1), Prefixed(Entry(n - 1), TableRoutes(v.entries[n - 1].1)));
    }
  }

  lemma {:induction false} ItemRoutesExact(v: Toml, n: nat)
    requires v.Array? && n <= |v.items|
    ensures Distinct(ItemRoutes(v, n))
    ensures forall s: seq<Step> :: s in ItemRoutes(v, n)
              <==> s != [] && s[0].Item? && s[0].i < n && ReachesTable(v, s)
    decreases v, 0, n
  {
    if n > 0 {
      ItemRoutesExact(v, n - 1);
      RoutesExact(v.items[n - 1]);
      PrefixedIs(Item(n - 1), TableRoutes(v.items[n - 1]));
      JoinDistinct(ItemRoutes(v, n - 1), Prefixed(Item(n - 1), TableRoutes(v.items[n - 1])));
    }
  }

  /** The visit a reached table is: its key path, and exactly its own keys. */
  function VisitAt(patterns: seq<Pattern>, v: Toml, path: Path, steps: seq<Step>): Visit
    requires ReachesTable(v, steps)
  {
    var container := PathOf(patterns, v, path, steps);
    Visit(container, set e | e in Reach(v, steps).value.entries :: Below(patterns, container, e))
  }

  /** The log is the tables at the routes, one visit each. */
  predicate Logged(patterns: seq<Pattern>, v: Toml, path: Path, routes: seq<seq<Step>>, log: seq<Visit>) {
    && |log| == |routes|
    && forall i | 0 <= i < |log| :: ReachesTable(v, routes[i]) && log[i] == VisitAt(patterns, v, path, routes[i])
  }

  lemma LoggedBelow(patterns: seq<Pattern>, v: Toml, path: Path, step: Step, log: seq<Visit>)
    requires match step
             case Entry(i) => v.Table? && i < |v.entries|
                              && Logged(patterns, v.entries[i].1, KeyPath(patterns, path, v.entries[i]),
                                        TableRoutes(v.entries[i].1), log)
             case Item(i) => v.Array? && i < |v.items| && path != []
                             && Logged(patterns, v.items[i], ItemsPath(path), TableRoutes(v.items[i]), log)
    ensures var child := if step.Entry? then v.entries[step.i].1 else v.items[step.i];
            Logged(patterns, v, path, Prefixed(step, TableRoutes(child)), log)
  {
    var child := if step.Entry? then v.entries[step.i].1 else v.items[step.i];
    var routes := TableRoutes(child);
    forall i | 0 <= i < |log|
      ensures ReachesTable(v, Prefixed(step, routes)[i])
      ensures log[i] == VisitAt(patterns, v, path, Prefixed(step, routes)[i])
    {
      assert ([step] + routes[i])[1..] == routes[i];
    }
  }

  lemma LoggedJoin(patterns: seq<Pattern>, v: Toml, path: Path, r: seq<seq<Step>>, a: seq<Visit>, s: seq<seq<Step>>,
                   b: seq<Visit>)
    requires Logged(patterns, v, path, r, a) && Logged(patterns, v, path, s, b)
    ensures Logged(patterns, v, path, r + s, a + b)
  {
  }

  lemma {:induction false} ValueLogged(patterns: seq<Pattern>, v: Toml, path: Path)
    requires path != []
    ensures Logged(patterns, v, path, TableRoutes(v), ValueTables(patterns, v, path))
    decreases v, 2
  {
    match v {
      case Leaf(_) =>
      case Table(_) => TableLogged(patterns, v, path);
      case Array(_) => ItemsLogged(patterns, v, |v.items|, path);
    }
  }

  lemma {:induction false} TableLogged(patterns: seq<Pattern>, table: Toml, path: Path)
    requires table.Table?
    ensures Logged(patterns, table, path, TableRoutes(table), TablesOf(patterns, table, path))
    decreases table, 1
  {
    EntriesLogged(patterns, table, |table.entries|, path);
    var here := [Visit(path, KeysOf(patterns, table.entries, path))];
    assert KeysOf(patterns, table.entries, path) == set e | e in table.entries :: Below(patterns, path, e);
    assert Logged(patterns, table, path, [[]], here);
    LoggedJoin(patterns, table, path, [[]], here, EntryRoutes(table, |table.entries|),
               EntryTables(patterns, table, |table.entries|, path));
  }

  lemma {:induction false} EntriesLogged(patterns: seq<Pattern>, table: Toml, n: nat, path: Path)
    requires table.Table? && n <= |table.entries|
    ensures Logged(patterns, table, path, EntryRoutes(table, n), EntryTables(patterns, table, n, path))
    decreases table, 0, n
  {
    if n > 0 {
      var e := table.entries[n - 1];
      EntriesLogged(patterns, table, n - 1, path);
      ValueLogged(patterns, e.1, KeyPath(patterns, path, e));
      LoggedBelow(patterns, table, path, Entry(n - 1), ValueTables(patterns, e.1, KeyPath(patterns, path, e)));
      LoggedJoin(patterns, table, path, EntryRoutes(table, n - 1), EntryTables(patterns, table, n - 1, path),
                 Prefixed(Entry(n - 1), TableRoutes(e.1)), ValueTables(patterns, e.1, KeyPath(patterns, path, e)));
    }
  }

  lemma {:induction false} ItemsLogged(patterns: seq<Pattern>, arr: Toml, n: nat, path: Path)
    requires arr.Array? && path != [] && n <= |arr.items|
    ensures Logged(patterns, arr, path, ItemRoutes(arr, n), ItemTables(patterns, arr, n, ItemsPath(path)))
    decreases arr, 0, n
  {
    if n > 0 {
      ItemsLogged(patterns, arr, n - 1, path);
      ValueLogged(patterns, arr.items[n - 1], ItemsPath(path));
      LoggedBelow(patterns, arr, path, Item(n - 1), ValueTables(patterns, arr.items[n - 1], ItemsPath(path)));
      LoggedJoin(patterns, arr, path, ItemRoutes(arr, n - 1), ItemTables(patterns, arr, n - 1, ItemsPath(path)),
                 Prefixed(Item(n - 1), TableRoutes(arr.items[n - 1])),
                 ValueTables(patterns, arr.items[n - 1], ItemsPath(path)));
    }
  }

  /** Every table reached, inside arrays and nested arrays too, is exactly one visit, which
      holds exactly its own key paths; and there is no other visit. */
  lemma TablesReached(patterns: seq<Pattern>, table: Toml, path: Path) returns (routes: seq<seq<Step>>)
    requires table.Table?
    ensures Distinct(routes) && forall s :: s in routes <==> ReachesTable(table, s)
    ensures Logged(patterns, table, path, routes, TablesOf(patterns, table, path))
  {
    RoutesExact(table);
    TableLogged(patterns, table, path);
    routes := TableRoutes(table);
  }

  // ---------------------------------------------------------------- one file kind

  predicate AreTables(files: seq<Toml>) {
    forall f | f in files :: f.Table?
  }

  /** Below the k-th file the steps lead to a value of this type at this key path. */
  predicate MetIn(patterns: seq<Pattern>, files: seq<Toml>, k: nat, steps: seq<Step>, t: (Path, TomlType)) {
    k < |files| && steps != [] && Meets(patterns, files[k], [], steps, t)
  }

  /** In the k-th file the steps lead to a table, whose visit this is. */
  predicate TableIn(patterns: seq<Pattern>, files: seq<Toml>, k: nat, steps: seq<Step>, visit: Visit) {
    k < |files| && ReachesTable(files[k], steps) && visit == VisitAt(patterns, files[k], [], steps)
  }

  /** Some value reached in the files is of this type, at this key path. */
  ghost predicate TypeMet(patterns: seq<Pattern>, files: seq<Toml>, t: (Path, TomlType)) {
    exists k, steps :: MetIn(patterns, files, k, steps, t)
  }

  /** Some table reached in the files has this key path and exactly these keys. */
  ghost predicate TableMet(patterns: seq<Pattern>, files: seq<Toml>, visit: Visit) {
    exists k, steps :: TableIn(patterns, files, k, steps, visit)
  }

  lemma {:induction false} FileTypesReached(patterns: seq<Pattern>, files: seq<Toml>, t: (Path, TomlType))
    requires AreTables(files)
    ensures t in FileTypes(patterns, files) <==> TypeMet(patterns, files, t)
  {
    if files != [] {
      var front, last := files[..|files| - 1], |files| - 1;
      FileTypesReached(patterns, front, t);
      TypesReached(patterns, files[last], [], t);
      hide Meets, TableTypes;
      forall k: nat, steps | k < last
        ensures MetIn(patterns, files, k, steps, t) <==> MetIn(patterns, front, k, steps, t)
      {
      }
      if t in FileTypes(patterns, front) {
        var k, steps :| MetIn(patterns, front, k, steps, t);
        assert MetIn(patterns, files, k, steps, t);
      } else if t in TableTypes(patterns, files[last], []) {
        var steps :| steps != [] && Meets(patterns, files[last], [], steps, t);
        assert MetIn(patterns, files, last, steps, t);
      }
    }
  }

  lemma TableReached(patterns: seq<Pattern>, table: Toml, visit: Visit)
    requires table.Table?
    ensures visit in TablesOf(patterns, table, []) <==> TableMet(patterns, [table], visit)
  {
    var log := TablesOf(patterns, table, []);
    var routes := TablesReached(patterns, table, []);
    if visit in log {
      var i :| 0 <= i < |log| && log[i] == visit;
      assert TableIn(patterns, [table], 0, routes[i], visit);
    }
    if TableMet(patterns, [table], visit) {
      var k, steps :| TableIn(patterns, [table], k, steps, visit);
      assert steps in routes;
      var i :| 0 <= i < |routes| && routes[i] == steps;
      assert log[i] == visit;
    }
  }

  lemma TableMetMore(patterns: seq<Pattern>, front: seq<Toml>, last: Toml, visit: Visit)
    ensures TableMet(patterns, front + [last], visit)
            <==> TableMet(patterns, front, visit) || TableMet(patterns, [last], visit)
  {
    hide VisitAt, ReachesTable;
    var files := front + [last];
    if TableMet(patterns, files, visit) {
      var k, steps :| TableIn(patterns, files, k, steps, visit);
      assert TableIn(patterns, front, k, steps, visit) || TableIn(patterns, [last], 0, steps, visit);
    }
    if TableMet(patterns, front, visit) {
      var k, steps :| TableIn(patterns, front, k, steps, visit);
      assert TableIn(patterns, files, k, steps, visit);
    }
    if TableMet(patterns, [last], visit) {
      var k, steps :| TableIn(patterns, [last], k, steps, visit);
      assert TableIn(patterns, files, |front|, steps, visit);
    }
  }

  lemma {:induction false} FileTablesReached(patterns: seq<Pattern>, files: seq<Toml>, visit: Visit)
    requires AreTables(files)
    ensures visit in FileTables(patterns, files) <==> TableMet(patterns, files, visit)
  {
    if files != [] {
      var front, last := files[..|files| - 1], files[|files| - 1];
      assert files == front + [last];
      FileTablesReached(patterns, front, visit);
      TableReached(patterns, last, visit);
      TableMetMore(patterns, front, last, visit);
      hide TableMet, TablesOf;
    }
  }

  /** The recorded format of a kind, by its files alone: a key path is recorded exactly if some
      value is reached at it, with exactly the types of the values reached; it has a required
      flag exactly if some reached table holds it and it is no data key; and the flag is set
      exactly if every table reached at its container holds it. */
  lemma RecordedExact(patterns: seq<Pattern>, files: seq<Toml>, path: Path)
    requires AreTables(files)
    ensures var keys := KeysOfFiles(patterns, files);
            && (path in keys <==> exists typ :: TypeMet(patterns, files, (path, typ)))
            && (path in keys ==>
                  && path != []
                  && (forall typ :: typ in keys[path].types <==> TypeMet(patterns, files, (path, typ)))
                  && (keys[path].required.Some? <==>
                        path[|path| - 1] != Segment(Star, 0)
                        && exists visit :: TableMet(patterns, files, visit) && path in visit.keys)
                  && (keys[path].required.Some? ==>
                        (keys[path].required.value <==>
                           forall visit | TableMet(patterns, files, visit)
                                          && visit.container == path[..|path| - 1] :: path in visit.keys)))
  {
    var log, types := FileTables(patterns, files), FileTypes(patterns, files);
    FilesRooted(patterns, files);
    assert KeysOfFiles(patterns, files) == FormatOf(log, types);
    hide *;
    forall typ
      ensures (path, typ) in types <==> TypeMet(patterns, files, (path, typ))
    {
      FileTypesReached(patterns, files, (path, typ));
    }
    forall visit
      ensures visit in log <==> TableMet(patterns, files, visit)
    {
      FileTablesReached(patterns, files, visit);
    }
    TypedAndHeld(log, types, path);
  }

  /** What FormatOf reads off a log and a set of types. */
  lemma TypedAndHeld(log: seq<Visit>, types: set<(Path, TomlType)>, path: Path)
    requires Rooted(log) && ItemsOrHeld(types, log)
    ensures path in FormatOf(log, types) <==> exists typ :: (path, typ) in types
    ensures path in FormatOf(log, types) ==>
              && path != []
              && (forall typ :: typ in FormatOf(log, types)[path].types <==> (path, typ) in types)
              && (FormatOf(log, types)[path].required.Some? <==>
                    path[|path| - 1] != Segment(Star, 0) && exists visit | visit in log :: path in visit.keys)
              && (FormatOf(log, types)[path].required.Some? ==>
                    (FormatOf(log, types)[path].required.value <==>
                       forall visit | visit in log && visit.container == path[..|path| - 1] :: path in visit.keys))
  {
    forall typ | (path, typ) in types
      ensures path != []
    {
      var t := (path, typ);
      assert IsItems(t.0) || Held(log, t.0);
    }
    forall t | t in types && t.0 == path
      ensures t == (path, t.1)
    {
    }
  }

  // ---------------------------------------------------------------- the comparator

  /** Some value is reached at the key path. */
  ghost predicate PathMet(patterns: seq<Pattern>, files: seq<Toml>, path: Path) {
    exists typ :: TypeMet(patterns, files, (path, typ))
  }

  /** A table holds the key, and it is no data key. */
  ghost predicate KeyMet(patterns: seq<Pattern>, files: seq<Toml>, path: Path) {
    && path != [] && path[|path| - 1] != Segment(Star, 0)
    && exists visit :: TableMet(patterns, files, visit) && path in visit.keys
  }

  /** Every table at its container holds the key. */
  ghost predicate Everywhere(patterns: seq<Pattern>, files: seq<Toml>, path: Path)
    requires path != []
  {
    forall visit | TableMet(patterns, files, visit) && visit.container == path[..|path| - 1] :: path in visit.keys
  }

  ghost predicate Required(patterns: seq<Pattern>, files: seq<Toml>, path: Path) {
    KeyMet(patterns, files, path) && Everywhere(patterns, files, path)
  }

  ghost predicate Optional(patterns: seq<Pattern>, files: seq<Toml>, path: Path) {
    KeyMet(patterns, files, path) && !Everywhere(patterns, files, path)
  }

  lemma FlagExact(patterns: seq<Pattern>, files: seq<Toml>, path: Path)
    requires AreTables(files)
    ensures path in KeysOfFiles(patterns, files) <==> PathMet(patterns, files, path)
    ensures path in KeysOfFiles(patterns, files) ==>
              && (KeysOfFiles(patterns, files)[path].required == Some(true) <==> Required(patterns, files, path))
              && (KeysOfFiles(patterns, files)[path].required == Some(false) <==> Optional(patterns, files, path))
              && (forall typ :: typ in KeysOfFiles(patterns, files)[path].types
                                <==> TypeMet(patterns, files, (path, typ)))
  {
    RecordedExact(patterns, files, path);
    hide KeysOfFiles, TypeMet, TableMet;
  }

  /** The problems of one key between two catalogs, said of their files: it is gone, it has a
      value of a new type, it was required and is no more, it was optional and is required. */
  lemma KeyProblemsExact(patterns: map<string, seq<Pattern>>, before: Catalog, after: Catalog, kind: string, path: Path)
    requires IsCatalog(before) && IsCatalog(after) && kind in before && kind in after
    ensures var ps, old_, new_ := PatternsFor(patterns, kind), Trees(before[kind]), Trees(after[kind]);
            var was, now := FormatOfCatalog(patterns, before), FormatOfCatalog(patterns, after);
            var stays := PathMet(ps, old_, path) && PathMet(ps, new_, path);
            && (IsProblem(was, now, KeyRemoved(kind, path))
                <==> PathMet(ps, old_, path) && !PathMet(ps, new_, path))
            && (IsProblem(was, now, Retyped(kind, path))
                <==> stays && exists typ :: TypeMet(ps, new_, (path, typ)) && !TypeMet(ps, old_, (path, typ)))
            && (IsProblem(was, now, NoLongerRequired(kind, path))
                <==> stays && Required(ps, old_, path) && !Required(ps, new_, path))
            && (IsProblem(was, now, NowRequired(kind, path))
                <==> stays && Optional(ps, old_, path) && Required(ps, new_, path))
  {
    var ps := PatternsFor(patterns, kind);
    assert AreTables(Trees(before[kind])) && AreTables(Trees(after[kind]));
    FlagExact(ps, Trees(before[kind]), path);
    FlagExact(ps, Trees(after[kind]), path);
    var was, now := FormatOfCatalog(patterns, before), FormatOfCatalog(patterns, after);
    var old_, new_ := KeysOfFiles(ps, Trees(before[kind])), KeysOfFiles(ps, Trees(after[kind]));
    assert was[kind].keys == old_ && now[kind].keys == new_;
    hide *;
    ProblemsOfKey(was, now, kind, path);
    if path in old_ && path in new_ {
      NewTypes(old_[path].types, new_[path].types);
    }
  }

  lemma NewTypes(was: set<TomlType>, now: set<TomlType>)
    ensures !(now <= was) <==> exists typ :: typ in now && typ !in was
  {
  }

  lemma ProblemsOfKey(was: Format, now: Format, kind: string, path: Path)
    requires kind in was && kind in now
    ensures var old_, new_ := was[kind].keys, now[kind].keys;
            && (IsProblem(was, now, KeyRemoved(kind, path)) <==> path in old_ && path !in new_)
            && (IsProblem(was, now, Retyped(kind, path))
                <==> path in old_ && path in new_ && !(new_[path].types <= old_[path].types))
            && (IsProblem(was, now, NoLongerRequired(kind, path))
                <==> && path in old_ && path in new_
                     && old_[path].required == Some(true) && new_[path].required != Some(true))
            && (IsProblem(was, now, NowRequired(kind, path))
                <==> && path in old_ && path in new_
                     && old_[path].required == Some(false) && new_[path].required == Some(true))
  {
  }

  /** And of kinds and files. */
  lemma FileProblemsExact(patterns: map<string, seq<Pattern>>, before: Catalog, after: Catalog, kind: string,
                          file: string)
    requires IsCatalog(before) && IsCatalog(after)
    ensures var was, now := FormatOfCatalog(patterns, before), FormatOfCatalog(patterns, after);
            && (IsProblem(was, now, KindRemoved(kind)) <==> kind in before && kind !in after)
            && (IsProblem(was, now, FileRemoved(kind, file))
                <==> && kind in before && kind in after
                     && (exists f | f in before[kind] :: f.0 == file)
                     && !(exists f | f in after[kind] :: f.0 == file))
  {
    hide KeysOfFiles;
  }
}
