/**
 The recorder and the comparator of scripts/catalog_format_snapshot.py: _Kind walks TOML
 tables and counts, build_format reads the counts off, evaluate_format compares.
 */
module CatalogFormat {
  import opened Common
  import opened CatalogTrees

  datatype KeyInfo = KeyInfo(types: set<TomlType>, required: Option<bool>)

  type Keys = map<Path, KeyInfo>

  /** _Kind: key-path statistics for one file kind while it is walked. */
  class Kind {
    const patterns: seq<Pattern>
    var types: map<Path, set<TomlType>>
    var seen: map<Path, nat>         // key path -> tables it appears in
    var containers: map<Path, nat>   // container path -> tables walked there
    var parent: map<Path, Path>      // key path -> its container path
    var collapsed: set<Path>         // key paths that end in a data key

    ghost var log: seq<Visit>                  // the tables walked, in order
    ghost var typed: set<(Path, TomlType)>     // the value types met

    /** The counts are those of the tables walked. */
    ghost predicate Valid()
      reads this
    {
      && ContainersRight(log, containers) && SeenRight(log, seen)
      && ParentsRight(log, parent, collapsed) && TypesRight(types, typed)
    }

    constructor (patterns: seq<Pattern>)
      ensures Valid() && log == [] && typed == {} && this.patterns == patterns
    {
      this.patterns := patterns;
      types, seen, containers, parent, collapsed := map[], map[], map[], map[], {};
      log, typed := [], {};
    }

    /** _segment: the loop over the patterns, with its early return. */
    method SegmentOf(container: Path, name: string, isTable: bool) returns (s: Segment)
      ensures s == SegmentFor(patterns, container, name, isTable)
    {
      var depth := |container|;
      var wildcard := false;
      for i := 0 to |patterns|
        invariant wildcard <==> exists p: Pattern | p in patterns[..i] :: Applies(p, container, name, isTable)
        invariant forall p: Pattern | p in patterns[..i] && Applies(p, container, name, isTable) :: p[depth].DataKey?
      {
        var pattern := patterns[i];
        assert patterns[..i + 1] == patterns[..i] + [pattern];
        if |pattern| <= depth || !(|pattern| == depth + 1 || isTable) {
          continue;
        }
        if exists k | 0 <= k < depth :: !SegmentMatches(pattern[k], container[k]) {
          continue;
        }
        if !SegmentMatches(pattern[depth], Segment(Named(name), 0)) {
          continue;
        }
        assert Applies(pattern, container, name, isTable);
        if !pattern[depth].DataKey? {
          assert pattern in patterns;
          return Segment(Named(name), 0);
        }
        wildcard := true;
      }
      assert patterns[..|patterns|] == patterns;
      s := Segment(if wildcard then Star else Named(name), 0);
    }

    /** self.types.setdefault(path, set()).add(type) */
    method AddType(path: Path, t: TomlType)
      requires Valid() && path != []
      modifies `types, `typed
      ensures Valid() && typed == old(typed) + {(path, t)}
    {
      TypeAdded(types, typed, path, t);
      types := types[path := (if path in types then types[path] else {}) + {t}];
      typed := typed + {(path, t)};
    }

    /** The top of walk_table: one more table at the container path. */
    method OpenTable(container: Path)
      requires Valid()
      modifies `containers, `log
      ensures Valid() && log == old(log) + [Visit(container, {})]
    {
      hide ContainersRight, SeenRight, ParentsRight, TypesRight;
      TableOpened(log, containers, seen, parent, collapsed, container);
      containers := containers[container := (if container in containers then containers[container] else 0) + 1];
      log := log + [Visit(container, {})];
    }

    /** A key of the table at log[n]: counted once per table. */
    method CountKey(ghost n: nat, container: Path, s: Segment, counted: bool)
      requires Valid() && n < |log| && log[n].container == container && s.brackets == 0
      requires counted <==> container + [s] in log[n].keys
      modifies `parent, `collapsed, `seen, `log
      ensures Valid() && log == old(log)[n := Visit(container, old(log)[n].keys + {container + [s]})]
    {
      hide ContainersRight, SeenRight, ParentsRight, TypesRight;
      var path := container + [s];
      KeyCounted(log, containers, seen, parent, collapsed, n, s);
      parent := parent[path := container];
      if s.base.Star? {
        collapsed := collapsed + {path};
      }
      if !counted {
        seen := seen[path := (if path in seen then seen[path] else 0) + 1];
      }
      assert counted ==> log[n].keys == log[n].keys + {path};
      log := log[n := Visit(container, log[n].keys + {path})];
    }

    /** walk_table */
    method WalkTable(table: Toml, container: Path)
      requires Valid() && table.Table?
      modifies this
      ensures Valid()
      ensures log == old(log) + TablesOf(patterns, table, container)
      ensures typed == old(typed) + TableTypes(patterns, table, container)
      decreases table, 1
    {
      hide ContainersRight, SeenRight, ParentsRight, TypesRight;
      ghost var n := |log|;
      OpenTable(container);
      var counted: set<Path> := {};
      for i := 0 to |table.entries|
        invariant Valid()
        invariant counted == KeysOf(patterns, table.entries[..i], container)
        invariant log == old(log) + [Visit(container, counted)] + EntryTables(patterns, table, i, container)
        invariant typed == old(typed) + EntryTypes(patterns, table, i, container)
      {
        var (key, value) := table.entries[i];
        var s := SegmentOf(container, key, value.Table?);
        var path := container + [s];
        OneMoreEntry(patterns, old(log), table, i, container, counted);
        CountKey(n, container, s, path in counted);
        counted := counted + {path};
        WalkValue(path, value);
      }
      assert table.entries[..|table.entries|] == table.entries;
    }

    /** _value */
    method WalkValue(path: Path, value: Toml)
      requires Valid() && path != []
      modifies this
      ensures Valid()
      ensures log == old(log) + ValueTables(patterns, value, path)
      ensures typed == old(typed) + ValueTypes(patterns, value, path)
      decreases value, 2
    {
      hide ContainersRight, SeenRight, ParentsRight, TypesRight;
      AddType(path, TypeOf(value));
      match value {
        case Leaf(_) =>
        case Table(_) => WalkTable(value, path);
        case Array(_) => WalkItems(ItemsPath(path), value);
      }
    }

    /** The loop of _value over an array's items. */
    method WalkItems(items: Path, arr: Toml)
      requires Valid() && arr.Array? && items != []
      modifies this
      ensures Valid()
      ensures log == old(log) + ItemTables(patterns, arr, |arr.items|, items)
      ensures typed == old(typed) + ItemTypes(patterns, arr, |arr.items|, items)
      decreases arr, 1
    {
      hide ContainersRight, SeenRight, ParentsRight, TypesRight;
      for i := 0 to |arr.items|
        invariant Valid()
        invariant log == old(log) + ItemTables(patterns, arr, i, items)
        invariant typed == old(typed) + ItemTypes(patterns, arr, i, items)
      {
        WalkItem(items, arr.items[i]);
      }
    }

    /** Its body: the item's type is added, and a table or an array is walked. */
    method WalkItem(items: Path, item: Toml)
      requires Valid() && items != []
      modifies this
      ensures Valid()
      ensures log == old(log) + ValueTables(patterns, item, items)
      ensures typed == old(typed) + ValueTypes(patterns, item, items)
      decreases item, 3
    {
      hide ContainersRight, SeenRight, ParentsRight, TypesRight;
      AddType(items, TypeOf(item));
      match item {
        case Leaf(_) =>
        case Table(_) => WalkTable(item, items);
        case Array(_) =>
          WalkValue(items, item);
          assert (items, TypeOf(item)) in ValueTypes(patterns, item, items);
      }
    }

    /** keys(): types and required flags, read off the counts. */
    method ReadKeys() returns (out: Keys)
      requires Valid()
      ensures out == FormatOf(log, typed)
    {
      out := map[];
      var todo := types.Keys;
      while todo != {}
        invariant todo <= types.Keys
        invariant out.Keys == types.Keys - todo
        invariant forall p | p in out :: out[p] == InfoOf(log, typed, p)
        decreases todo
      {
        var path :| path in todo;
        todo := todo - {path};
        ReadRight(log, typed, containers, seen, parent, collapsed, types, path);
        var required := None;
        if path in seen && path !in collapsed {
          required := Some(seen[path] == containers[parent[path]]);
        }
        out := out[path := KeyInfo(types[path], required)];
      }
    }
  }

  // ---------------------------------------------------------------- the counters against the log

  ghost predicate ContainersRight(log: seq<Visit>, containers: map<Path, nat>) {
    forall p: Path ::
      (p in containers <==> CountAt(log, p) > 0) && (p in containers ==> containers[p] == CountAt(log, p))
  }

  ghost predicate SeenRight(log: seq<Visit>, seen: map<Path, nat>) {
    forall p: Path ::
      (p in seen <==> CountHolding(log, p) > 0) && (p in seen ==> seen[p] == CountHolding(log, p))
  }

  ghost predicate ParentsRight(log: seq<Visit>, parent: map<Path, Path>, collapsed: set<Path>) {
    && Rooted(log)
    && (forall p | p in collapsed :: IsCollapsed(p))
    && (forall p: Path | Held(log, p) ::
          p != [] && p in parent && parent[p] == p[..|p| - 1] && (IsCollapsed(p) ==> p in collapsed))
  }

  ghost predicate TypesRight(types: map<Path, set<TomlType>>, typed: set<(Path, TomlType)>) {
    && (forall p | p in types :: p != [] && types[p] == TypesAt(typed, p))
    && (forall t | t in typed :: t.0 in types)
    && (forall p | p in types :: exists t | t in typed :: t.0 == p)
  }

  function TypesAt(typed: set<(Path, TomlType)>, path: Path): set<TomlType> {
    set t | t in typed && t.0 == path :: t.1
  }

  lemma TypeAdded(types: map<Path, set<TomlType>>, typed: set<(Path, TomlType)>, path: Path, t: TomlType)
    requires TypesRight(types, typed) && path != []
    ensures TypesRight(types[path := (if path in types then types[path] else {}) + {t}], typed + {(path, t)})
  {
    var more := typed + {(path, t)};
    var now := types[path := (if path in types then types[path] else {}) + {t}];
    forall p | p in now
      ensures now[p] == TypesAt(more, p)
      ensures exists u | u in more :: u.0 == p
    {
      if p == path {
        assert (path, t) in more;
        assert TypesAt(more, p) == TypesAt(typed, p) + {t};
        assert p !in types ==> TypesAt(typed, p) == {};
      } else {
        assert TypesAt(more, p) == TypesAt(typed, p);
        var u :| u in typed && u.0 == p;
        assert u in more;
      }
    }
  }

  lemma TableOpened(log: seq<Visit>, containers: map<Path, nat>, seen: map<Path, nat>,
                    parent: map<Path, Path>, collapsed: set<Path>, container: Path)
    requires ContainersRight(log, containers) && SeenRight(log, seen) && ParentsRight(log, parent, collapsed)
    ensures var more := log + [Visit(container, {})];
            && ContainersRight(more,
                               containers[container := (if container in containers then containers[container]
                                                        else 0) + 1])
            && SeenRight(more, seen) && ParentsRight(more, parent, collapsed)
  {
    var more := log + [Visit(container, {})];
    forall p: Path
      ensures CountAt(more, p) == CountAt(log, p) + (if container == p then 1 else 0)
      ensures CountHolding(more, p) == CountHolding(log, p)
      ensures Held(more, p) ==> Held(log, p)
    {
      CountAppend(log, Visit(container, {}), p);
      HeldSomewhere(log, p);
      HeldSomewhere(more, p);
    }
  }

  lemma OneMoreEntry(patterns: seq<Pattern>, before: seq<Visit>, table: Toml, i: nat, container: Path,
                     counted: set<Path>)
    requires table.Table? && i < |table.entries|
    requires counted == KeysOf(patterns, table.entries[..i], container)
    ensures var path := KeyPath(patterns, container, table.entries[i]);
            var log := before + [Visit(container, counted)] + EntryTables(patterns, table, i, container);
            && counted + {path} == KeysOf(patterns, table.entries[..i + 1], container)
            && log[|before|] == Visit(container, counted)
            && log[|before| := Visit(container, counted + {path})] + ValueTables(patterns, table.entries[i].1, path)
               == before + [Visit(container, counted + {path})] + EntryTables(patterns, table, i + 1, container)
  {
    OneMoreKey(patterns, table, i, container);
    var path := KeyPath(patterns, container, table.entries[i]);
    ReplaceThenAppend(before, Visit(container, counted), EntryTables(patterns, table, i, container),
                      Visit(container, counted + {path}), ValueTables(patterns, table.entries[i].1, path));
  }

  lemma OneMoreKey(patterns: seq<Pattern>, table: Toml, i: nat, container: Path)
    requires table.Table? && i < |table.entries|
    ensures KeysOf(patterns, table.entries[..i + 1], container)
         == KeysOf(patterns, table.entries[..i], container) + {KeyPath(patterns, container, table.entries[i])}
  {
    assert table.entries[..i + 1] == table.entries[..i] + [table.entries[i]];
  }

  lemma ReplaceThenAppend<T>(a: seq<T>, x: T, b: seq<T>, y: T, c: seq<T>)
    ensures (a + [x] + b)[|a|] == x
    ensures (a + [x] + b)[|a| := y] + c == a + [y] + (b + c)
  {
  }

  /** The log with a key path added to its n-th table. */
  ghost function WithKey(log: seq<Visit>, n: nat, path: Path): seq<Visit>
    requires n < |log|
  {
    log[n := Visit(log[n].container, log[n].keys + {path})]
  }

  lemma KeyCounted(log: seq<Visit>, containers: map<Path, nat>, seen: map<Path, nat>,
                   parent: map<Path, Path>, collapsed: set<Path>, n: nat, s: Segment)
    requires ContainersRight(log, containers) && SeenRight(log, seen) && ParentsRight(log, parent, collapsed)
    requires n < |log| && s.brackets == 0
    ensures var container := log[n].container;
            var path := container + [s];
            var more := log[n := Visit(container, log[n].keys + {path})];
            && ContainersRight(more, containers)
            && SeenRight(more, if path in log[n].keys then seen
                         else seen[path := (if path in seen then seen[path] else 0) + 1])
            && ParentsRight(more, parent[path := container], if s.base.Star? then collapsed + {path} else collapsed)
  {
    var path := log[n].container + [s];
    if path in log[n].keys {
      assert log[n].keys + {path} == log[n].keys;
      assert WithKey(log, n, path) == log;
    } else {
      KeyCounts(log, containers, seen, n, path);
    }
    KeyParents(log, parent, collapsed, n, s);
  }

  lemma KeyCounts(log: seq<Visit>, containers: map<Path, nat>, seen: map<Path, nat>, n: nat, path: Path)
    requires ContainersRight(log, containers) && SeenRight(log, seen) && n < |log| && path !in log[n].keys
    ensures ContainersRight(WithKey(log, n, path), containers)
    ensures SeenRight(WithKey(log, n, path), seen[path := (if path in seen then seen[path] else 0) + 1])
  {
    var more := WithKey(log, n, path);
    forall p: Path
      ensures CountAt(more, p) == CountAt(log, p)
      ensures CountHolding(more, p) == CountHolding(log, p) + (if p == path then 1 else 0)
    {
      CountGainsKey(log, n, path, p);
    }
  }

  lemma KeyParents(log: seq<Visit>, parent: map<Path, Path>, collapsed: set<Path>, n: nat, s: Segment)
    requires ParentsRight(log, parent, collapsed) && n < |log| && s.brackets == 0
    ensures var path := log[n].container + [s];
            ParentsRight(WithKey(log, n, path), parent[path := log[n].container],
                         if s.base.Star? then collapsed + {path} else collapsed)
  {
    var path := log[n].container + [s];
    var more := WithKey(log, n, path);
    assert path[..|path| - 1] == log[n].container && path[|path| - 1] == s;
    MoreRooted(log, n, path);
    forall p: Path | Held(more, p)
      ensures p == path || Held(log, p)
    {
      var v :| v in more && p in v.keys;
      assert v in log || v == more[n];
      assert log[n] in log;
    }
  }

  lemma MoreRooted(log: seq<Visit>, n: nat, path: Path)
    requires Rooted(log) && n < |log| && path != [] && path[..|path| - 1] == log[n].container
    ensures Rooted(log[n := Visit(log[n].container, log[n].keys + {path})])
  {
    var more := log[n := Visit(log[n].container, log[n].keys + {path})];
    forall v, p | v in more && p in v.keys
      ensures p != [] && p[..|p| - 1] == v.container
    {
      assert v in log || v == more[n];
      assert log[n] in log;
    }
  }

  /** What keys() computes from the counters is what the log says. */
  lemma ReadRight(log: seq<Visit>, typed: set<(Path, TomlType)>, containers: map<Path, nat>, seen: map<Path, nat>,
                  parent: map<Path, Path>, collapsed: set<Path>, types: map<Path, set<TomlType>>, path: Path)
    requires ContainersRight(log, containers) && SeenRight(log, seen) && ParentsRight(log, parent, collapsed)
    requires TypesRight(types, typed) && path in types
    ensures path in seen <==> Held(log, path)
    ensures path in seen ==> path in parent && parent[path] in containers && (path in collapsed <==> IsCollapsed(path))
    ensures InfoOf(log, typed, path)
         == KeyInfo(types[path],
                    if path in seen && path !in collapsed then Some(seen[path] == containers[parent[path]]) else None)
  {
    CountsAgree(log, path);
    HeldSomewhere(log, path);
  }

  // ---------------------------------------------------------------- the format, said of the trees

  ghost function InfoOf(log: seq<Visit>, typed: set<(Path, TomlType)>, path: Path): KeyInfo
    requires path != []
  {
    KeyInfo(TypesAt(typed, path),
            if Held(log, path) && !IsCollapsed(path)
            then Some(forall v | v in log && v.container == path[..|path| - 1] :: path in v.keys)
            else None)
  }

  ghost function FormatOf(log: seq<Visit>, typed: set<(Path, TomlType)>): Keys {
    map p | p in (set t | t in typed && t.0 != [] :: t.0) :: InfoOf(log, typed, p)
  }

  // ---------------------------------------------------------------- one file kind

  /** The tables of a kind's files, in order. */
  function FileTables(patterns: seq<Pattern>, files: seq<Toml>): seq<Visit>
    requires forall f | f in files :: f.Table?
  {
    if files == [] then []
    else FileTables(patterns, files[..|files| - 1]) + TablesOf(patterns, files[|files| - 1], [])
  }

  function FileTypes(patterns: seq<Pattern>, files: seq<Toml>): set<(Path, TomlType)>
    requires forall f | f in files :: f.Table?
  {
    if files == [] then {}
    else FileTypes(patterns, files[..|files| - 1]) + TableTypes(patterns, files[|files| - 1], [])
  }

  /** A kind's recorded keys: every typed key path, with every type it has somewhere, and
      required exactly when every table at its container path holds it. */
  ghost function KeysOfFiles(patterns: seq<Pattern>, files: seq<Toml>): Keys
    requires forall f | f in files :: f.Table?
  {
    FormatOf(FileTables(patterns, files), FileTypes(patterns, files))
  }

  /** The body of build_format for one kind: a fresh _Kind walked over its files. */
  method BuildKind(patterns: seq<Pattern>, files: seq<Toml>) returns (keys: Keys)
    requires forall f | f in files :: f.Table?
    ensures keys == KeysOfFiles(patterns, files)
  {
    var kind := new Kind(patterns);
    for i := 0 to |files|
      invariant kind.Valid() && kind.patterns == patterns
      invariant kind.log == FileTables(patterns, files[..i])
      invariant kind.typed == FileTypes(patterns, files[..i])
      invariant fresh(kind)
    {
      assert files[..i + 1][..i] == files[..i];
      kind.WalkTable(files[i], []);
    }
    assert files[..|files|] == files;
    keys := kind.ReadKeys();
  }

  lemma {:induction false} FilesRooted(patterns: seq<Pattern>, files: seq<Toml>)
    requires forall f | f in files :: f.Table?
    ensures Rooted(FileTables(patterns, files))
    ensures ItemsOrHeld(FileTypes(patterns, files), FileTables(patterns, files))
  {
    if files != [] {
      var front, last := files[..|files| - 1], files[|files| - 1];
      FilesRooted(patterns, front);
      TablesRooted(patterns, last, []);
      TableTypesHeld(patterns, last, []);
      ItemsOrHeldJoin(FileTypes(patterns, front), TableTypes(patterns, last, []),
                      FileTables(patterns, front), TablesOf(patterns, last, []));
    }
  }

  /** Whether a key path carries a required flag at all is settled by its form: every key
      that is not an array's items and not a data key has one. */
  lemma FlagByForm(patterns: seq<Pattern>, files: seq<Toml>, path: Path)
    requires forall f | f in files :: f.Table?
    requires path in KeysOfFiles(patterns, files)
    ensures IsCollapsed(path) ==> KeysOfFiles(patterns, files)[path].required.None?
    ensures !IsItems(path) && !IsCollapsed(path) ==> KeysOfFiles(patterns, files)[path].required.Some?
  {
    FilesRooted(patterns, files);
    var types := FileTypes(patterns, files);
    var t :| t in types && t.0 == path;
    assert IsItems(t.0) || Held(FileTables(patterns, files), t.0);
  }

  // ---------------------------------------------------------------- the comparator

  datatype KindFormat = KindFormat(files: set<string>, keys: Keys)

  type Format = map<string, KindFormat>

  datatype Problem =
    | KindRemoved(kind: string)
    | FileRemoved(kind: string, file: string)
    | KeyRemoved(kind: string, path: Path)
    | Retyped(kind: string, path: Path)
    | NoLongerRequired(kind: string, path: Path)
    | NowRequired(kind: string, path: Path)

  predicate IsProblem(recorded: Format, current: Format, p: Problem) {
    && p.kind in recorded
    && match p
       case KindRemoved(kind) => kind !in current
       case FileRemoved(kind, file) => kind in current && file in recorded[kind].files && file !in current[kind].files
       case KeyRemoved(kind, path) => kind in current && path in recorded[kind].keys && path !in current[kind].keys
       case Retyped(kind, path) =>
         kind in current && path in recorded[kind].keys && path in current[kind].keys
         && !(current[kind].keys[path].types <= recorded[kind].keys[path].types)
       case NoLongerRequired(kind, path) =>
         kind in current && path in recorded[kind].keys && path in current[kind].keys
         && recorded[kind].keys[path].required == Some(true) && current[kind].keys[path].required != Some(true)
       case NowRequired(kind, path) =>
         kind in current && path in recorded[kind].keys && path in current[kind].keys
         && recorded[kind].keys[path].required == Some(false) && current[kind].keys[path].required == Some(true)
  }

  /** The inner loop of evaluate_format, over one kind's recorded keys. */
  method EvaluateKeys(kind: string, recorded: Format, current: Format) returns (problems: seq<Problem>)
    requires kind in recorded && kind in current
    ensures forall p :: p in problems <==>
              IsProblem(recorded, current, p) && p.kind == kind && !p.KindRemoved? && !p.FileRemoved?
  {
    problems := [];
    var before, after := recorded[kind].keys, current[kind].keys;
    var todo := before.Keys;
    while todo != {}
      invariant todo <= before.Keys
      invariant forall p :: p in problems <==>
                  IsProblem(recorded, current, p) && p.kind == kind && !p.KindRemoved? && !p.FileRemoved?
                      && p.path !in todo
      decreases todo
    {
      var path :| path in todo;
      todo := todo - {path};
      var found := [];
      if path !in after {
        found := [KeyRemoved(kind, path)];
      } else {
        var was, now := before[path], after[path];
        var added := now.types - was.types;
        assert forall t :: t in added <==> t in now.types && t !in was.types;
        if added != {} {
          found := found + [Retyped(kind, path)];
        }
        if was.required == Some(true) && now.required != Some(true) {
          found := found + [NoLongerRequired(kind, path)];
        }
        if was.required == Some(false) && now.required == Some(true) {
          found := found + [NowRequired(kind, path)];
        }
      }
      forall p
        ensures p in found
                <==> && IsProblem(recorded, current, p) && p.kind == kind
                     && !p.KindRemoved? && !p.FileRemoved? && p.path == path
      {
      }
      assert forall p :: p in problems + found <==> p in problems || p in found;
      problems := problems + found;
    }
  }

  /** evaluate_format */
  method EvaluateFormat(recorded: Format, current: Format) returns (problems: seq<Problem>)
    ensures forall p :: p in problems <==> IsProblem(recorded, current, p)
  {
    problems := [];
    var todo := recorded.Keys;
    while todo != {}
      invariant todo <= recorded.Keys
      invariant forall p :: p in problems <==> IsProblem(recorded, current, p) && p.kind !in todo
      decreases todo
    {
      var kind :| kind in todo;
      ghost var done := problems;
      todo := todo - {kind};
      if kind !in current {
        problems := problems + [KindRemoved(kind)];
        forall p
          ensures p in problems <==> IsProblem(recorded, current, p) && p.kind !in todo
        {
          assert p in problems <==> p in done || p == KindRemoved(kind);
          assert p in done <==> IsProblem(recorded, current, p) && p.kind !in todo && p.kind != kind;
        }
        continue;
      }
      var gone := recorded[kind].files - current[kind].files;
      var files := gone;
      while files != {}
        invariant files <= gone
        invariant forall p ::
                    p in problems <==> p in done || (p.FileRemoved? && p.kind == kind && p.file in gone - files)
        decreases files
      {
        var file :| file in files;
        files := files - {file};
        problems := problems + [FileRemoved(kind, file)];
      }
      var more := EvaluateKeys(kind, recorded, current);
      problems := problems + more;
      forall p
        ensures p in problems <==> IsProblem(recorded, current, p) && p.kind !in todo
      {
        assert p in problems <==> p in done || p in more || (p.FileRemoved? && p.kind == kind && p.file in gone);
        assert p in done <==> IsProblem(recorded, current, p) && p.kind !in todo && p.kind != kind;
      }
    }
  }

  ghost predicate Compatible(recorded: Format, current: Format) {
    forall p :: !IsProblem(recorded, current, p)
  }

  // ---------------------------------------------------------------- readers across releases

  /** A catalog: per kind, its files by name, in the order they are read. */
  type Catalog = map<string, seq<(string, Toml)>>

  ghost predicate IsCatalog(c: Catalog) {
    forall kind, f | kind in c && f in c[kind] :: f.1.Table?
  }

  function Trees(files: seq<(string, Toml)>): (r: seq<Toml>)
    ensures |r| == |files|
    ensures forall i | 0 <= i < |files| :: r[i] == files[i].1
  {
    seq(|files|, i requires 0 <= i < |files| => files[i].1)
  }

  function PatternsFor(patterns: map<string, seq<Pattern>>, kind: string): seq<Pattern> {
    if kind in patterns then patterns[kind] else []
  }

  /** build_format */
  ghost function FormatOfCatalog(patterns: map<string, seq<Pattern>>, c: Catalog): Format
    requires IsCatalog(c)
  {
    map kind | kind in c ::
      KindFormat(set f | f in c[kind] :: f.0, KeysOfFiles(PatternsFor(patterns, kind), Trees(c[kind])))
  }

  method BuildFormat(patterns: map<string, seq<Pattern>>, c: Catalog) returns (format: Format)
    requires IsCatalog(c)
    ensures format == FormatOfCatalog(patterns, c)
  {
    format := map[];
    var todo := c.Keys;
    while todo != {}
      invariant todo <= c.Keys && format.Keys == c.Keys - todo
      invariant forall kind | kind in format :: format[kind] == FormatOfCatalog(patterns, c)[kind]
      decreases todo
    {
      var kind :| kind in todo;
      todo := todo - {kind};
      var trees := Trees(c[kind]);
      assert forall f | f in trees :: f.Table?;
      var keys := BuildKind(PatternsFor(patterns, kind), trees);
      format := format[kind := KindFormat(set f | f in c[kind] :: f.0, keys)];
    }
  }

  /** Every step of the history was found compatible. */
  ghost predicate PassingHistory(patterns: map<string, seq<Pattern>>, cs: seq<Catalog>) {
    && (forall i | 0 <= i < |cs| :: IsCatalog(cs[i]))
    && (forall i | 0 <= i < |cs| - 1 ::
          Compatible(FormatOfCatalog(patterns, cs[i]), FormatOfCatalog(patterns, cs[i + 1])))
  }

  /** What a reader of the recorded format relies on in the current one. */
  ghost predicate StillReadable(recorded: Format, current: Format) {
    forall kind | kind in recorded ::
      && kind in current && recorded[kind].files <= current[kind].files
      && forall path | path in recorded[kind].keys ::
           && path in current[kind].keys
           && current[kind].keys[path].types <= recorded[kind].keys[path].types
           && (recorded[kind].keys[path].required == Some(true) ==> current[kind].keys[path].required == Some(true))
  }

  /** Passing the comparator is being readable, but for an optional key found everywhere. */
  lemma CompatibleMeansReadable(recorded: Format, current: Format)
    ensures Compatible(recorded, current)
            <==> && StillReadable(recorded, current)
                 && forall kind, path | kind in recorded && path in recorded[kind].keys ::
                      recorded[kind].keys[path].required == Some(false) ==>
                          current[kind].keys[path].required != Some(true)
  {
    if Compatible(recorded, current) {
      forall kind | kind in recorded
        ensures kind in current && recorded[kind].files <= current[kind].files
      {
        assert !IsProblem(recorded, current, KindRemoved(kind));
        forall file | file in recorded[kind].files
          ensures file in current[kind].files
        {
          assert !IsProblem(recorded, current, FileRemoved(kind, file));
        }
      }
      forall kind, path | kind in recorded && path in recorded[kind].keys
        ensures path in current[kind].keys
        ensures current[kind].keys[path].types <= recorded[kind].keys[path].types
        ensures recorded[kind].keys[path].required == Some(true) ==> current[kind].keys[path].required == Some(true)
        ensures recorded[kind].keys[path].required == Some(false) ==> current[kind].keys[path].required != Some(true)
      {
        assert !IsProblem(recorded, current, KeyRemoved(kind, path));
        assert !IsProblem(recorded, current, Retyped(kind, path));
        assert !IsProblem(recorded, current, NoLongerRequired(kind, path));
        assert !IsProblem(recorded, current, NowRequired(kind, path));
      }
    }
  }

  lemma {:induction false} HistoryReadable(patterns: map<string, seq<Pattern>>, cs: seq<Catalog>, j: nat)
    requires PassingHistory(patterns, cs) && j < |cs|
    ensures StillReadable(FormatOfCatalog(patterns, cs[0]), FormatOfCatalog(patterns, cs[j]))
  {
    if j > 0 {
      HistoryReadable(patterns, cs, j - 1);
      CompatibleMeansReadable(FormatOfCatalog(patterns, cs[j - 1]), FormatOfCatalog(patterns, cs[j]));
      assert Compatible(FormatOfCatalog(patterns, cs[j - 1]), FormatOfCatalog(patterns, cs[j - 1 + 1]));
    }
  }

  /** Reader safety, said of the catalogs themselves: through any history of passing
      releases every file stays, a key path that was recorded still exists with only types
      it had, and a key that was required is in every table at its container. */
  lemma ReaderSafety(patterns: map<string, seq<Pattern>>, cs: seq<Catalog>, j: nat, kind: string, path: Path)
    requires PassingHistory(patterns, cs) && j < |cs| && kind in cs[0]
    requires path in KeysOfFiles(PatternsFor(patterns, kind), Trees(cs[0][kind]))
    ensures kind in cs[j]
    ensures forall f | f in cs[0][kind] :: exists g | g in cs[j][kind] :: g.0 == f.0
    ensures var ps := PatternsFor(patterns, kind);
            && (exists t | t in FileTypes(ps, Trees(cs[j][kind])) :: t.0 == path)
            && (forall t | t in FileTypes(ps, Trees(cs[j][kind])) && t.0 == path ::
                t in FileTypes(ps, Trees(cs[0][kind])))
            && (KeysOfFiles(ps, Trees(cs[0][kind]))[path].required == Some(true) ==>
                  forall v | v in FileTables(ps, Trees(cs[j][kind])) && v.container == path[..|path| - 1] ::
                      path in v.keys)
  {
    HistoryReadable(patterns, cs, j);
    var was, now := FormatOfCatalog(patterns, cs[0])[kind], FormatOfCatalog(patterns, cs[j])[kind];
    forall f | f in cs[0][kind]
      ensures exists g | g in cs[j][kind] :: g.0 == f.0
    {
      assert f.0 in was.files;
      assert f.0 in now.files;
    }
    var ps := PatternsFor(patterns, kind);
    assert path in now.keys;
    forall t | t in FileTypes(ps, Trees(cs[j][kind])) && t.0 == path
      ensures t in FileTypes(ps, Trees(cs[0][kind]))
    {
      assert t.1 in now.keys[path].types;
      assert t.1 in was.keys[path].types;
    }
  }

  /** The keys recorded for one kind of a catalog. */
  ghost function Recorded(patterns: map<string, seq<Pattern>>, c: Catalog, kind: string): (keys: Keys)
    requires IsCatalog(c) && kind in c
  {
    KeysOfFiles(PatternsFor(patterns, kind), Trees(c[kind]))
  }

  /** An optional key stays optional too: a step cannot lose its flag, which its form
      settles, and so cannot hide it from the comparator. */
  lemma {:induction false} OptionalStaysOptional(patterns: map<string, seq<Pattern>>, cs: seq<Catalog>, j: nat,
                                                 kind: string, path: Path)
    requires PassingHistory(patterns, cs) && j < |cs|
    requires kind in cs[0] && path in Recorded(patterns, cs[0], kind)
    requires !IsItems(path) && Recorded(patterns, cs[0], kind)[path].required == Some(false)
    ensures kind in cs[j] && path in Recorded(patterns, cs[j], kind)
    ensures Recorded(patterns, cs[j], kind)[path].required == Some(false)
  {
    if j > 0 {
      OptionalStaysOptional(patterns, cs, j - 1, kind, path);
      assert Compatible(FormatOfCatalog(patterns, cs[j - 1]), FormatOfCatalog(patterns, cs[j - 1 + 1]));
      OptionalCatalogStep(patterns, cs[j - 1], cs[j], kind, path);
    }
  }

  lemma OptionalCatalogStep(patterns: map<string, seq<Pattern>>, before: Catalog, after: Catalog, kind: string,
                            path: Path)
    requires IsCatalog(before) && IsCatalog(after)
    requires Compatible(FormatOfCatalog(patterns, before), FormatOfCatalog(patterns, after))
    requires kind in before && path in Recorded(patterns, before, kind)
    requires !IsItems(path) && Recorded(patterns, before, kind)[path].required == Some(false)
    ensures kind in after && path in Recorded(patterns, after, kind)
    ensures Recorded(patterns, after, kind)[path].required == Some(false)
  {
    OptionalStep(FormatOfCatalog(patterns, before), FormatOfCatalog(patterns, after), kind, path);
    FlagByForm(PatternsFor(patterns, kind), Trees(before[kind]), path);
    FlagByForm(PatternsFor(patterns, kind), Trees(after[kind]), path);
  }

  lemma OptionalStep(recorded: Format, current: Format, kind: string, path: Path)
    requires Compatible(recorded, current)
    requires kind in recorded && path in recorded[kind].keys && recorded[kind].keys[path].required == Some(false)
    ensures kind in current && path in current[kind].keys && current[kind].keys[path].required != Some(true)
  {
    CompatibleMeansReadable(recorded, current);
  }

  /** Without that the comparator is not transitive: a flag lost for one release lets an
      optional key become required in two steps, each of which passes. */
  lemma LostFlagHidesAChange(kind: string, path: Path)
    ensures var types := {StringT};
            var f := (required: Option<bool>) => map[kind := KindFormat({}, map[path := KeyInfo(types, required)])];
            && Compatible(f(Some(false)), f(None)) && Compatible(f(None), f(Some(true)))
            && !Compatible(f(Some(false)), f(Some(true)))
  {
    var f := (required: Option<bool>) => map[kind := KindFormat({}, map[path := KeyInfo({StringT}, required)])];
    assert IsProblem(f(Some(false)), f(Some(true)), NowRequired(kind, path));
  }
}
