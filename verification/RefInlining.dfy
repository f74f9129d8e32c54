/**
 Inlining $ref (_unwrap_allof_ref and _resolve of scripts/contract_schema_snapshot.py), and
 what a schema accepts before and after: JSON Schema 2020-12, Core sections 8.2.3.1 ($ref),
 10.2.1 (allOf, anyOf, oneOf) and 10.3 (items, properties, additionalProperties).

 A keyword with no schema inside is left to a parameter: what type, enum, minimum and the
 like assert does not matter here. Lists keep their order; the source sorts some of them.
 */
module RefInlining {
  import opened JsonValues
  import opened Texts

  /** A schema as loaded from JSON. */
  datatype Raw = RObj(entries: map<string, Raw>) | RList(items: seq<Raw>) | RAtom(value: Scalar)

  const COSMETIC_KEYS := {"title", "description", "default", "examples"}

  /** Keys _resolve drops from every object. */
  const DROPPED_KEYS := {"title", "description", "default", "examples", "$defs"}

  // ---------------------------------------------------------------- _resolve

  /** A single $ref wrapped in allOf. */
  predicate WrapsRef(m: map<string, Raw>) {
    && "allOf" in m && m["allOf"].RList? && |m["allOf"].items| == 1
    && m["allOf"].items[0].RObj? && "$ref" in m["allOf"].items[0].entries
  }

  /** _unwrap_allof_ref: the use site's own keys win. */
  function Unwrap(m: map<string, Raw>): map<string, Raw> {
    if WrapsRef(m) then m["allOf"].items[0].entries + (m - {"allOf"}) else m
  }

  predicate IsRef(m: map<string, Raw>) {
    "$ref" in m && m["$ref"].RAtom? && m["$ref"].value.SStr?
  }

  /** ref.rsplit("/", 1)[-1] */
  function RefName(m: map<string, Raw>): string
    requires IsRef(m)
  {
    var parts := SplitOn(m["$ref"].value.s, '/');
    parts[|parts| - 1]
  }

  lemma {:induction false} LastPart(path: string, name: string, sep: char)
    requires sep !in name
    ensures var parts := SplitOn(path + [sep] + name, sep); |parts| >= 2 && parts[|parts| - 1] == name
  {
    var whole := path + [sep] + name;
    NoPart(name, sep);
    if path != "" {
      LastPart(path[1..], name, sep);
      assert whole[1..] == path[1..] + [sep] + name;
    } else {
      assert whole[1..] == name;
    }
  }

  lemma {:induction false} NoPart(name: string, sep: char)
    requires sep !in name
    ensures SplitOn(name, sep) == [name]
  {
    if name != "" {
      NoPart(name[1..], sep);
      assert name[0] in name && [name[0]] + name[1..] == name;
    }
  }

  /** A ref names what follows its last slash, as in #/$defs/Name, or all of it. */
  lemma RefNameExact(m: map<string, Raw>, path: string, name: string)
    requires IsRef(m) && '/' !in name
    requires m["$ref"].value.s == path + "/" + name || m["$ref"].value.s == name
    ensures RefName(m) == name
  {
    LastPart(path, name, '/');
    NoPart(name, '/');
  }

  type Defs = map<string, Raw>

  /** {**target, **siblings}: siblings win on key collision. */
  function Merge(target: Raw, siblings: map<string, Raw>): Raw {
    RObj((if target.RObj? then target.entries else map[]) + siblings)
  }

  function Resolve(node: Raw, defs: Defs, seen: set<string>): Raw
    decreases defs.Keys - seen, node, 1
  {
    match node
    case RAtom(_) => node
    case RList(items) => RList(seq(|items|, i requires 0 <= i < |items| => Resolve(items[i], defs, seen)))
    case RObj(m) =>
      var u := Unwrap(m);
      if IsRef(u) then
        var name := RefName(u);
        var target :=
          if name in seen then RObj(map["$cycle" := RAtom(SStr(name))])
          else if name !in defs then RObj(map[])
          else
            assert name in defs.Keys - seen && name !in defs.Keys - (seen + {name});
            Resolve(defs[name], defs, seen + {name});
        Merge(target, ResolveEntries(node, defs, seen))
      else RObj(ResolveEntries(node, defs, seen))
  }

  /** The entries of an unwrapped object but its $ref, each resolved. */
  function ResolveEntries(node: Raw, defs: Defs, seen: set<string>): map<string, Raw>
    requires node.RObj?
    decreases defs.Keys - seen, node, 0
  {
    var u := Unwrap(node.entries);
    map k | k in u && k !in DROPPED_KEYS && !(k == "$ref" && IsRef(u)) ::
      assert k in node.entries || k in node.entries["allOf"].items[0].entries;
      Resolve(u[k], defs, seen)
  }

  // ---------------------------------------------------------------- what a schema accepts

  /** The assertion of a keyword that holds no schema. */
  type Assertion = (string, Raw, Json) -> bool

  /** Definitions, a rank that every $ref inside a definition lowers, and the assertions. */
  datatype Env = Env(defs: Defs, rank: map<string, nat>, holds: Assertion)

  const APPLICATORS := {"$ref", "allOf", "anyOf", "oneOf", "items", "properties", "additionalProperties"}

  predicate Declares(m: map<string, Raw>, name: string) {
    "properties" in m && m["properties"].RObj? && name in m["properties"].entries
  }

  ghost predicate Accepts(env: Env, bound: nat, node: Raw, v: Json)
    decreases bound, node, 1
  {
    match node
    case RAtom(c) => c.SBool? ==> c.b
    case RList(_) => true
    case RObj(m) => forall k | k in m :: Keyword(env, bound, node, k, v)
  }

  ghost predicate Keyword(env: Env, bound: nat, node: Raw, k: string, v: Json)
    requires node.RObj? && k in node.entries
    decreases bound, node, 0
  {
    var m := node.entries;
    var value := m[k];
    if k == "$ref" then
      if !IsRef(m) then true
      else
        var name := RefName(m);
        if name !in env.defs then true
        else name in env.rank && env.rank[name] < bound && Accepts(env, env.rank[name], env.defs[name], v)
    else if k == "allOf" then value.RList? ==> AllTrue(Verdicts(env, bound, value, v))
    else if k == "anyOf" then value.RList? ==> SomeTrue(Verdicts(env, bound, value, v))
    else if k == "oneOf" then value.RList? ==> OneTrue(Verdicts(env, bound, value, v))
    else if k == "items" then v.JArr? ==> forall x | x in v.items :: Accepts(env, bound, value, x)
    else if k == "properties" then
      value.RObj? && v.JObj? ==>
        forall name | name in value.entries && name in v.fields ::
            Accepts(env, bound, value.entries[name], v.fields[name])
    else if k == "additionalProperties" then
      v.JObj? ==> forall name | name in v.fields && !Declares(m, name) :: Accepts(env, bound, value, v.fields[name])
    else k in DROPPED_KEYS || env.holds(k, value, v)
  }

  /** Which of the listed schemas accept the value. */
  ghost function Verdicts(env: Env, bound: nat, list: Raw, v: Json): seq<bool>
    requires list.RList?
    decreases bound, list, 0
  {
    seq(|list.items|, i requires 0 <= i < |list.items| => Accepts(env, bound, list.items[i], v))
  }

  predicate AllTrue(bs: seq<bool>) {
    forall i | 0 <= i < |bs| :: bs[i]
  }

  predicate SomeTrue(bs: seq<bool>) {
    exists i | 0 <= i < |bs| :: bs[i]
  }

  predicate OneTrue(bs: seq<bool>) {
    exists i | 0 <= i < |bs| :: bs[i] && forall j | 0 <= j < |bs| && j != i :: !bs[j]
  }

  // ---------------------------------------------------------------- no $ref remains

  predicate RefFree(node: Raw) {
    match node
    case RAtom(_) => true
    case RList(items) => forall x | x in items :: RefFree(x)
    case RObj(m) => "$ref" !in m && forall k | k in m :: RefFree(m[k])
  }

  /** Every $ref is text. */
  predicate TextRefs(node: Raw) {
    match node
    case RAtom(_) => true
    case RList(items) => forall x | x in items :: TextRefs(x)
    case RObj(m) => ("$ref" in m ==> IsRef(m)) && forall k | k in m :: TextRefs(m[k])
  }

  /** The values of an unwrapped object are values of the object or of the one it wraps. */
  lemma UnwrappedParts(node: Raw, k: string)
    requires node.RObj? && k in Unwrap(node.entries)
    ensures Unwrap(node.entries)[k] < node
    ensures TextRefs(node) ==> TextRefs(Unwrap(node.entries)[k])
    ensures TextRefs(node) && k == "$ref" ==> IsRef(Unwrap(node.entries))
  {
    var m := node.entries;
    if WrapsRef(m) {
      var inner := m["allOf"].items[0];
      if TextRefs(node) { assert TextRefs(m["allOf"]) && TextRefs(inner); }
    }
  }

  /** Inlining leaves no $ref anywhere, whatever the definitions, cyclic ones included. */
  lemma {:induction false} ResolveLeavesNoRef(node: Raw, defs: Defs, seen: set<string>)
    requires TextRefs(node) && forall name | name in defs :: TextRefs(defs[name])
    ensures RefFree(Resolve(node, defs, seen))
    decreases defs.Keys - seen, node
  {
    match node {
      case RAtom(_) =>
      case RList(items) =>
        forall i | 0 <= i < |items|
          ensures RefFree(Resolve(items[i], defs, seen))
        {
          ResolveLeavesNoRef(items[i], defs, seen);
        }
      case RObj(m) =>
        var u := Unwrap(m);
        var e := ResolveEntries(node, defs, seen);
        forall k | k in e
          ensures RefFree(e[k]) && k != "$ref"
        {
          UnwrappedParts(node, k);
          ResolveLeavesNoRef(u[k], defs, seen);
        }
        if IsRef(u) {
          var name := RefName(u);
          if name !in seen && name in defs {
            assert name in defs.Keys - seen && name !in defs.Keys - (seen + {name});
            ResolveLeavesNoRef(defs[name], defs, seen + {name});
          }
        }
    }
  }

  // ---------------------------------------------------------------- what inlining drops and marks

  /** No key that only describes, at any depth. */
  predicate Bare(node: Raw) {
    match node
    case RAtom(_) => true
    case RList(items) => forall x | x in items :: Bare(x)
    case RObj(m) =>
      && "title" !in m && "description" !in m && "default" !in m && "examples" !in m && "$defs" !in m
      && forall k | k in m :: Bare(m[k])
  }

  /** Cosmetic keys are gone everywhere, whatever the definitions. */
  lemma {:induction false} ResolveDropsCosmetics(node: Raw, defs: Defs, seen: set<string>)
    ensures Bare(Resolve(node, defs, seen))
    decreases defs.Keys - seen, node
  {
    match node {
      case RAtom(_) =>
      case RList(items) =>
        forall i | 0 <= i < |items|
          ensures Bare(Resolve(items[i], defs, seen))
        {
          ResolveDropsCosmetics(items[i], defs, seen);
        }
      case RObj(m) =>
        var u := Unwrap(m);
        var e := ResolveEntries(node, defs, seen);
        forall k | k in e
          ensures Bare(e[k])
        {
          UnwrappedParts(node, k);
          ResolveDropsCosmetics(u[k], defs, seen);
        }
        if IsRef(u) {
          var name := RefName(u);
          if name !in seen && name in defs {
            assert name in defs.Keys - seen && name !in defs.Keys - (seen + {name});
            ResolveDropsCosmetics(defs[name], defs, seen + {name});
          }
        }
    }
  }

  /** Unwrapping takes the one schema out of allOf; the keys beside it stay and win. Anything
      else is left as it is. */
  lemma UnwrapExact(m: map<string, Raw>)
    ensures !WrapsRef(m) ==> Unwrap(m) == m
    ensures WrapsRef(m) ==>
              var inner := m["allOf"].items[0].entries;
              && (forall k :: k in Unwrap(m) <==> k in inner || (k in m && k != "allOf"))
              && (forall k | k in Unwrap(m) :: Unwrap(m)[k] == if k in m && k != "allOf" then m[k] else inner[k])
  {
  }

  /** A ref to a definition is replaced by the definition inlined; the keys beside it stay and
      win. */
  lemma SiblingsWin(node: Raw, defs: Defs, seen: set<string>)
    requires node.RObj? && IsRef(Unwrap(node.entries))
    requires RefName(Unwrap(node.entries)) !in seen && RefName(Unwrap(node.entries)) in defs
    requires defs[RefName(Unwrap(node.entries))].RObj?
    ensures var u := Unwrap(node.entries);
            var target, after := Resolve(defs[RefName(u)], defs, seen + {RefName(u)}), Resolve(node, defs, seen);
            && target.RObj? && after.RObj?
            && (forall k | k in u && k != "$ref" && k !in DROPPED_KEYS ::
                  k in after.entries && u[k] < node && after.entries[k] == Resolve(u[k], defs, seen))
            && (forall k | k in target.entries && (k !in u || k == "$ref" || k in DROPPED_KEYS) ::
                  k in after.entries && after.entries[k] == target.entries[k])
            && (forall k | k in after.entries :: (k in u && k != "$ref") || k in target.entries)
  {
    var u := Unwrap(node.entries);
    forall k | k in u
      ensures u[k] < node
    {
      UnwrappedParts(node, k);
    }
  }

  /** A ref on the way to itself leaves its name behind, one to no definition leaves nothing;
      in both cases the keys beside it stay, and win. */
  lemma CycleMarked(node: Raw, defs: Defs, seen: set<string>)
    requires node.RObj? && IsRef(Unwrap(node.entries))
    requires RefName(Unwrap(node.entries)) in seen || RefName(Unwrap(node.entries)) !in defs
    ensures var u, after := Unwrap(node.entries), Resolve(node, defs, seen);
            && after.RObj?
            && (forall k | k in u && k != "$ref" && k !in DROPPED_KEYS ::
                  k in after.entries && u[k] < node && after.entries[k] == Resolve(u[k], defs, seen))
            && (forall k | k in after.entries :: (k in u && k != "$ref") || k == "$cycle")
            && ("$cycle" !in u ==>
                  ("$cycle" in after.entries <==> RefName(u) in seen)
                  && (RefName(u) in seen ==> after.entries["$cycle"] == RAtom(SStr(RefName(u)))))
  {
    var u := Unwrap(node.entries);
    forall k | k in u
      ensures u[k] < node
    {
      UnwrappedParts(node, k);
    }
  }

  // ---------------------------------------------------------------- what inlining needs

  /** No keyword of the two collides, and additionalProperties stays beside the properties
      it looks at. */
  predicate KeywordsApart(a: set<string>, b: set<string>) {
    && a !! b
    && !("additionalProperties" in a && "properties" in b)
    && !("properties" in a && "additionalProperties" in b)
  }

  function OwnKeys(m: map<string, Raw>): set<string> {
    Unwrap(m).Keys - DROPPED_KEYS - {"$ref"}
  }

  /** The keys an object can have once inlined: its own and those of what it refers to. */
  function TopKeys(env: Env, bound: nat, m: map<string, Raw>): set<string>
    decreases bound
  {
    var u := Unwrap(m);
    OwnKeys(m)
    + (if IsRef(u) && RefName(u) in env.defs && RefName(u) in env.rank && env.rank[RefName(u)] < bound
          && env.defs[RefName(u)].RObj?
       then TopKeys(env, env.rank[RefName(u)], env.defs[RefName(u)].entries)
       else {})
  }

  /** A value with nothing to inline or drop. */
  predicate Inert(node: Raw) {
    match node
    case RAtom(_) => true
    case RList(items) => forall x | x in items :: Inert(x)
    case RObj(m) => m.Keys !! DROPPED_KEYS + {"$ref"} && !WrapsRef(m) && forall k | k in m :: Inert(m[k])
  }

  /** A schema whose inlining keeps its meaning: each $ref goes down in rank, keywords that
      meet do not collide, and no property has a name _resolve drops or follows. */
  predicate Inlinable(env: Env, bound: nat, node: Raw)
    decreases node, 0
  {
    match node
    case RAtom(_) => true
    case RList(items) => forall x | x in items :: Inlinable(env, bound, x)
    case RObj(m) =>
      var u := Unwrap(m);
      && (WrapsRef(m) ==> KeywordsApart(m["allOf"].items[0].entries.Keys, m.Keys - {"allOf"}))
      && ("$ref" in u ==> IsRef(u))
      && (IsRef(u) && RefName(u) in env.defs ==>
            && RefName(u) in env.rank && env.rank[RefName(u)] < bound
            && env.defs[RefName(u)].RObj?
            && KeywordsApart(TopKeys(env, env.rank[RefName(u)], env.defs[RefName(u)].entries), OwnKeys(m)))
      && (forall k | k in u && k !in DROPPED_KEYS && k != "$ref" ::
            assert k in m || k in m["allOf"].items[0].entries;
            InlinableValue(env, bound, k, u[k]))
  }

  predicate InlinableValue(env: Env, bound: nat, k: string, value: Raw)
    decreases value, 1
  {
    if k in {"allOf", "anyOf", "oneOf"} then value.RList? && Inlinable(env, bound, value)
    else if k in {"items", "additionalProperties"} then !value.RList? && Inlinable(env, bound, value)
    else if k == "properties" then
      && value.RObj?
      && value.entries.Keys !! DROPPED_KEYS + {"$ref"} && !WrapsRef(value.entries)
      && forall name | name in value.entries :: !value.entries[name].RList?
          && Inlinable(env, bound, value.entries[name])
    else Inert(value)
  }

  predicate InlinableDefs(env: Env) {
    forall name | name in env.defs ::
      name in env.rank && env.defs[name].RObj? && Inlinable(env, env.rank[name], env.defs[name])
  }

  lemma {:induction false} InertStays(node: Raw, defs: Defs, seen: set<string>)
    requires Inert(node)
    ensures Resolve(node, defs, seen) == node
    decreases node
  {
    match node {
      case RAtom(_) =>
      case RList(items) =>
        forall i | 0 <= i < |items|
          ensures Resolve(items[i], defs, seen) == items[i]
        {
          InertStays(items[i], defs, seen);
        }
      case RObj(m) =>
        forall k | k in m
          ensures Resolve(m[k], defs, seen) == m[k]
        {
          InertStays(m[k], defs, seen);
        }
        assert ResolveEntries(node, defs, seen) == m;
    }
  }

  // ---------------------------------------------------------------- objects as conjunctions

  /** A keyword looks at its own value and, for additionalProperties, at properties. */
  lemma KeywordAlone(env: Env, bound: nat, a: Raw, b: Raw, k: string, v: Json)
    requires a.RObj? && b.RObj? && k in a.entries && k in b.entries && a.entries[k] == b.entries[k]
    requires k == "additionalProperties" ==>
               ("properties" in a.entries <==> "properties" in b.entries)
               && ("properties" in a.entries ==> a.entries["properties"] == b.entries["properties"])
    ensures Keyword(env, bound, a, k, v) <==> Keyword(env, bound, b, k, v)
  {
    if k == "additionalProperties" {
      assert forall name :: Declares(a.entries, name) <==> Declares(b.entries, name);
    }
  }

  /** Keywords that do not meet assert one by one. */
  lemma MergeAccepts(env: Env, bound: nat, a: map<string, Raw>, b: map<string, Raw>, v: Json)
    requires KeywordsApart(a.Keys, b.Keys)
    ensures Accepts(env, bound, RObj(a + b), v) <==> Accepts(env, bound, RObj(a), v) && Accepts(env, bound, RObj(b), v)
  {
    var both := RObj(a + b);
    forall k | k in a
      ensures Keyword(env, bound, both, k, v) <==> Keyword(env, bound, RObj(a), k, v)
    {
      KeywordAlone(env, bound, both, RObj(a), k, v);
    }
    forall k | k in b
      ensures Keyword(env, bound, both, k, v) <==> Keyword(env, bound, RObj(b), k, v)
    {
      KeywordAlone(env, bound, both, RObj(b), k, v);
    }
  }

  lemma SoleMember(env: Env, bound: nat, list: Raw, v: Json)
    requires list.RList? && |list.items| == 1
    ensures Keyword(env, bound, RObj(map["allOf" := list]), "allOf", v) <==> Accepts(env, bound, list.items[0], v)
  {
    var bs := Verdicts(env, bound, list, v);
    assert bs[0] == Accepts(env, bound, list.items[0], v);
    assert AllTrue(bs) <==> bs[0];
  }

  /** Unwrapping allOf: [{$ref}] keeps the meaning when the keywords do not meet. */
  lemma UnwrapKeeps(env: Env, bound: nat, m: map<string, Raw>, v: Json)
    requires WrapsRef(m) ==> KeywordsApart(m["allOf"].items[0].entries.Keys, m.Keys - {"allOf"})
    ensures Accepts(env, bound, RObj(m), v) <==> Accepts(env, bound, RObj(Unwrap(m)), v)
  {
    if WrapsRef(m) {
      var inner := m["allOf"].items[0];
      var alone := map["allOf" := m["allOf"]];
      var rest := m - {"allOf"};
      assert alone + rest == m;
      MergeAccepts(env, bound, alone, rest, v);
      MergeAccepts(env, bound, inner.entries, rest, v);
      assert RObj(inner.entries) == inner;
      SoleMember(env, bound, m["allOf"], v);
      assert Accepts(env, bound, RObj(alone), v) <==> Keyword(env, bound, RObj(alone), "allOf", v);
    }
  }

  // ---------------------------------------------------------------- inlining keeps the meaning

  /** No name being inlined can be met again. */
  ghost predicate Above(env: Env, seen: set<string>, bound: nat) {
    forall name | name in seen :: name in env.defs && name in env.rank && env.rank[name] >= bound
  }

  /** An inlined object's keys are those foreseen. */
  lemma {:induction false} KeysForeseen(env: Env, bound: nat, node: Raw, seen: set<string>)
    requires InlinableDefs(env) && Inlinable(env, bound, node) && Above(env, seen, bound) && node.RObj?
    ensures Resolve(node, env.defs, seen).RObj?
    ensures Resolve(node, env.defs, seen).entries.Keys <= TopKeys(env, bound, node.entries)
    decreases bound
  {
    var u := Unwrap(node.entries);
    var e := ResolveEntries(node, env.defs, seen);
    assert e.Keys <= OwnKeys(node.entries);
    if IsRef(u) && RefName(u) in env.defs {
      var name := RefName(u);
      KeysForeseen(env, env.rank[name], env.defs[name], seen + {name});
    }
  }

  lemma {:induction false} ResolveKeepsMeaning(env: Env, bound: nat, node: Raw, seen: set<string>, v: Json)
    requires InlinableDefs(env) && Inlinable(env, bound, node) && Above(env, seen, bound)
    ensures Accepts(env, bound, node, v) <==> Accepts(env, 0, Resolve(node, env.defs, seen), v)
    decreases bound, node, 2
  {
    if node.RObj? {
      var u := Unwrap(node.entries);
      UnwrapKeeps(env, bound, node.entries, v);
      EntriesKeepMeaning(env, bound, node, seen, v);
      if IsRef(u) {
        RefKeepsMeaning(env, bound, node, seen, v);
      } else {
        assert u - {"$ref"} == u;
      }
    }
  }

  /** At a $ref: the object asserts what its target and its other keywords assert. */
  lemma {:induction false} RefKeepsMeaning(env: Env, bound: nat, node: Raw, seen: set<string>, v: Json)
    requires InlinableDefs(env) && Inlinable(env, bound, node) && Above(env, seen, bound)
    requires node.RObj? && IsRef(Unwrap(node.entries))
    requires Accepts(env, bound, RObj(Unwrap(node.entries) - {"$ref"}), v)
             <==> Accepts(env, 0, RObj(ResolveEntries(node, env.defs, seen)), v)
    ensures Accepts(env, bound, RObj(Unwrap(node.entries)), v)
            <==> Accepts(env, 0, Resolve(node, env.defs, seen), v)
    decreases bound, node, 1
  {
    var u := Unwrap(node.entries);
    var name := RefName(u);
    var e := ResolveEntries(node, env.defs, seen);
    SplitRef(env, bound, u, v);
    if name in env.defs {
      assert name !in seen;
      hide Accepts, Keyword;
      ResolveKeepsMeaning(env, env.rank[name], env.defs[name], seen + {name}, v);
      KeysForeseen(env, env.rank[name], env.defs[name], seen + {name});
      var target := Resolve(env.defs[name], env.defs, seen + {name});
      assert e.Keys <= OwnKeys(node.entries);
      MergeAccepts(env, 0, target.entries, e, v);
      TargetInlined(env.defs, node, seen);
    } else {
      assert map[] + e == e;
      assert Resolve(node, env.defs, seen) == Merge(RObj(map[]), e);
    }
  }

  lemma TargetInlined(defs: Defs, node: Raw, seen: set<string>)
    requires node.RObj? && IsRef(Unwrap(node.entries))
    requires RefName(Unwrap(node.entries)) in defs && RefName(Unwrap(node.entries)) !in seen
    ensures var name := RefName(Unwrap(node.entries));
            Resolve(node, defs, seen)
                == Merge(Resolve(defs[name], defs, seen + {name}), ResolveEntries(node, defs, seen))
  {
  }

  lemma SplitRef(env: Env, bound: nat, u: map<string, Raw>, v: Json)
    requires IsRef(u)
    ensures Accepts(env, bound, RObj(u), v)
            <==> Keyword(env, bound, RObj(u), "$ref", v) && Accepts(env, bound, RObj(u - {"$ref"}), v)
  {
    var alone := map["$ref" := u["$ref"]];
    assert alone + (u - {"$ref"}) == u;
    MergeAccepts(env, bound, alone, u - {"$ref"}, v);
    KeywordAlone(env, bound, RObj(u), RObj(alone), "$ref", v);
    assert Accepts(env, bound, RObj(alone), v) <==> Keyword(env, bound, RObj(alone), "$ref", v);
  }

  /** Keyword by keyword, everything but the $ref. */
  lemma {:induction false} EntriesKeepMeaning(env: Env, bound: nat, node: Raw, seen: set<string>, v: Json)
    requires InlinableDefs(env) && Inlinable(env, bound, node) && Above(env, seen, bound) && node.RObj?
    ensures Accepts(env, bound, RObj(Unwrap(node.entries) - {"$ref"}), v)
            <==> Accepts(env, 0, RObj(ResolveEntries(node, env.defs, seen)), v)
    decreases bound, node, 1
  {
    var u := Unwrap(node.entries) - {"$ref"};
    var e := ResolveEntries(node, env.defs, seen);
    forall k | k in u
      ensures k in DROPPED_KEYS ==> Keyword(env, bound, RObj(u), k, v)
      ensures k !in DROPPED_KEYS ==> k in e && (Keyword(env, bound, RObj(u), k, v) <==> Keyword(env, 0, RObj(e), k, v))
    {
      if k !in DROPPED_KEYS {
        UnwrappedParts(node, k);
        ValueKeepsMeaning(env, bound, node, k, seen, v);
      }
    }
    assert forall k :: k in e ==> k in u && k !in DROPPED_KEYS;
  }

  lemma {:induction false} ValueKeepsMeaning(env: Env, bound: nat, node: Raw, k: string, seen: set<string>, v: Json)
    requires InlinableDefs(env) && Inlinable(env, bound, node) && Above(env, seen, bound) && node.RObj?
    requires k in Unwrap(node.entries) && k !in DROPPED_KEYS && k != "$ref"
    ensures k in ResolveEntries(node, env.defs, seen)
    ensures Keyword(env, bound, RObj(Unwrap(node.entries) - {"$ref"}), k, v)
            <==> Keyword(env, 0, RObj(ResolveEntries(node, env.defs, seen)), k, v)
    decreases bound, node, 0
  {
    var u := Unwrap(node.entries) - {"$ref"};
    var e := ResolveEntries(node, env.defs, seen);
    UnwrappedParts(node, k);
    assert InlinableValue(env, bound, k, u[k]);
    assert e[k] == Resolve(u[k], env.defs, seen);
    if k == "additionalProperties" {
      DeclaredStay(env, bound, node, seen);
    }
    KeywordKeepsMeaning(env, bound, u, e, k, seen, v);
  }

  lemma {:induction false} KeywordKeepsMeaning(env: Env, bound: nat, u: map<string, Raw>, e: map<string, Raw>,
                                               k: string, seen: set<string>, v: Json)
    requires InlinableDefs(env) && Above(env, seen, bound)
    requires k in u && k in e && k !in DROPPED_KEYS && k != "$ref"
    requires InlinableValue(env, bound, k, u[k]) && e[k] == Resolve(u[k], env.defs, seen)
    requires k == "additionalProperties" ==> forall name :: Declares(u, name) <==> Declares(e, name)
    ensures Keyword(env, bound, RObj(u), k, v) <==> Keyword(env, 0, RObj(e), k, v)
    decreases bound, u[k], 4
  {
    var value := u[k];
    if k in {"allOf", "anyOf", "oneOf"} {
      forall i | 0 <= i < |value.items|
        ensures Accepts(env, bound, value.items[i], v) <==> Accepts(env, 0, e[k].items[i], v)
      {
        ResolveKeepsMeaning(env, bound, value.items[i], seen, v);
      }
      ListKeyword(env, bound, u, e, k, v);
    } else if k == "items" || k == "additionalProperties" {
      ElementsKeepMeaning(env, bound, value, seen, v);
      ElementKeyword(env, bound, u, e, k, v);
    } else if k == "properties" {
      PropertiesKeepMeaning(env, bound, value, seen, v);
      PropertiesKeyword(env, bound, u, e, v);
    } else {
      InertStays(value, env.defs, seen);
    }
  }

  lemma {:induction false} ElementsKeepMeaning(env: Env, bound: nat, value: Raw, seen: set<string>, v: Json)
    requires InlinableDefs(env) && Inlinable(env, bound, value) && Above(env, seen, bound)
    ensures v.JArr? ==> forall x | x in v.items ::
              Accepts(env, bound, value, x) <==> Accepts(env, 0, Resolve(value, env.defs, seen), x)
    ensures v.JObj? ==> forall name | name in v.fields ::
              Accepts(env, bound, value, v.fields[name])
              <==> Accepts(env, 0, Resolve(value, env.defs, seen), v.fields[name])
    decreases bound, value, 3
  {
    if v.JArr? {
      forall x | x in v.items
        ensures Accepts(env, bound, value, x) <==> Accepts(env, 0, Resolve(value, env.defs, seen), x)
      {
        ResolveKeepsMeaning(env, bound, value, seen, x);
      }
    } else if v.JObj? {
      forall name | name in v.fields
        ensures Accepts(env, bound, value, v.fields[name])
                <==> Accepts(env, 0, Resolve(value, env.defs, seen), v.fields[name])
      {
        ResolveKeepsMeaning(env, bound, value, seen, v.fields[name]);
      }
    }
  }

  lemma {:induction false} PropertiesKeepMeaning(env: Env, bound: nat, value: Raw, seen: set<string>, v: Json)
    requires InlinableDefs(env) && InlinableValue(env, bound, "properties", value) && Above(env, seen, bound)
    ensures var after := Resolve(value, env.defs, seen);
            && after.RObj? && after.entries.Keys == value.entries.Keys
            && (v.JObj? ==> forall name | name in value.entries && name in v.fields ::
                  Accepts(env, bound, value.entries[name], v.fields[name])
                  <==> Accepts(env, 0, after.entries[name], v.fields[name]))
    decreases bound, value, 0
  {
    PropertiesStay(value, env.defs, seen);
    if v.JObj? {
      forall name | name in value.entries && name in v.fields
        ensures Accepts(env, bound, value.entries[name], v.fields[name])
                <==> Accepts(env, 0, Resolve(value.entries[name], env.defs, seen), v.fields[name])
      {
        ResolveKeepsMeaning(env, bound, value.entries[name], seen, v.fields[name]);
      }
    }
  }

  /** Members are accepted before and after inlining alike. */
  ghost predicate SameMembers(env: Env, bound: nat, xs: Raw, ys: Raw, v: Json) {
    && xs.RList? && ys.RList? && |xs.items| == |ys.items|
    && forall i | 0 <= i < |xs.items| :: Accepts(env, bound, xs.items[i], v) <==> Accepts(env, 0, ys.items[i], v)
  }

  lemma ListKeyword(env: Env, bound: nat, u: map<string, Raw>, e: map<string, Raw>, k: string, v: Json)
    requires k in {"allOf", "anyOf", "oneOf"} && k in u && k in e
    requires SameMembers(env, bound, u[k], e[k], v)
    ensures Keyword(env, bound, RObj(u), k, v) <==> Keyword(env, 0, RObj(e), k, v)
  {
    assert Verdicts(env, bound, u[k], v) == Verdicts(env, 0, e[k], v);
  }

  lemma ElementKeyword(env: Env, bound: nat, u: map<string, Raw>, e: map<string, Raw>, k: string, v: Json)
    requires (k == "items" || k == "additionalProperties") && k in u && k in e
    requires k == "additionalProperties" ==> forall name :: Declares(u, name) <==> Declares(e, name)
    requires v.JArr? ==> forall x | x in v.items :: Accepts(env, bound, u[k], x) <==> Accepts(env, 0, e[k], x)
    requires v.JObj? ==> forall name | name in v.fields ::
               Accepts(env, bound, u[k], v.fields[name]) <==> Accepts(env, 0, e[k], v.fields[name])
    ensures Keyword(env, bound, RObj(u), k, v) <==> Keyword(env, 0, RObj(e), k, v)
  {
  }

  lemma PropertiesKeyword(env: Env, bound: nat, u: map<string, Raw>, e: map<string, Raw>, v: Json)
    requires "properties" in u && "properties" in e && u["properties"].RObj? && e["properties"].RObj?
    requires u["properties"].entries.Keys == e["properties"].entries.Keys
    requires v.JObj? ==> forall name | name in u["properties"].entries && name in v.fields ::
               Accepts(env, bound, u["properties"].entries[name], v.fields[name])
               <==> Accepts(env, 0, e["properties"].entries[name], v.fields[name])
    ensures Keyword(env, bound, RObj(u), "properties", v) <==> Keyword(env, 0, RObj(e), "properties", v)
  {
    var ps, qs := u["properties"].entries, e["properties"].entries;
    assert forall name :: name in ps <==> name in qs;
  }

  /** With ordinary names, inlining keeps every property and inlines each. */
  lemma PropertiesStay(value: Raw, defs: Defs, seen: set<string>)
    requires value.RObj? && value.entries.Keys !! DROPPED_KEYS + {"$ref"} && !WrapsRef(value.entries)
    ensures Resolve(value, defs, seen)
         == RObj(map name | name in value.entries :: Resolve(value.entries[name], defs, seen))
  {
    assert Unwrap(value.entries) == value.entries;
    assert ResolveEntries(value, defs, seen) == map name | name in value.entries ::
           Resolve(value.entries[name], defs, seen);
  }

  lemma DeclaredStay(env: Env, bound: nat, node: Raw, seen: set<string>)
    requires Inlinable(env, bound, node) && node.RObj?
    ensures forall name :: Declares(Unwrap(node.entries) - {"$ref"}, name)
                           <==> Declares(ResolveEntries(node, env.defs, seen), name)
  {
    var u := Unwrap(node.entries) - {"$ref"};
    if "properties" in u {
      UnwrappedParts(node, "properties");
      assert InlinableValue(env, bound, "properties", u["properties"]);
      PropertiesStay(u["properties"], env.defs, seen);
    }
  }

  /** The whole claim: for definitions without cycles, a value is valid under the schema with
      its $refs exactly when it is valid under what canonical_schema makes of it, which holds
      no $ref. */
  lemma InliningKeepsMeaning(env: Env, bound: nat, schema: Raw, v: Json)
    requires InlinableDefs(env) && Inlinable(env, bound, schema)
    requires TextRefs(schema) && forall name | name in env.defs :: TextRefs(env.defs[name])
    ensures Accepts(env, bound, schema, v) <==> Accepts(env, 0, Resolve(schema, env.defs, {}), v)
    ensures RefFree(Resolve(schema, env.defs, {}))
  {
    ResolveKeepsMeaning(env, bound, schema, {}, v);
    ResolveLeavesNoRef(schema, env.defs, {});
  }

  // ---------------------------------------------------------------- where inlining changes the meaning

  /** A schema of one keyword asserts that keyword. */
  lemma OneKeyword(env: Env, bound: nat, k: string, value: Raw, v: Json)
    ensures Accepts(env, bound, RObj(map[k := value]), v) <==> Keyword(env, bound, RObj(map[k := value]), k, v)
  {
  }

  /** A property named like a cosmetic key loses its schema: the inlined schema accepts
      every value, the schema itself exactly those whose property is valid. */
  lemma CosmeticPropertyIsDropped(env: Env, name: string, schema: Raw, seen: set<string>, v: Json)
    requires name in COSMETIC_KEYS
    ensures var obj := RObj(map["properties" := RObj(map[name := schema])]);
            && Accepts(env, 0, Resolve(obj, env.defs, seen), v)
            && (Accepts(env, 0, obj, v) <==> (v.JObj? && name in v.fields ==> Accepts(env, 0, schema, v.fields[name])))
  {
    var ps, none := RObj(map[name := schema]), RObj(map[]);
    DroppedProperty(env, name, schema, seen);
    OneKeyword(env, 0, "properties", ps, v);
    OneKeyword(env, 0, "properties", none, v);
    assert ps.entries[name] == schema;
  }

  lemma DroppedProperty(env: Env, name: string, schema: Raw, seen: set<string>)
    requires name in COSMETIC_KEYS
    ensures Resolve(RObj(map["properties" := RObj(map[name := schema])]), env.defs, seen)
         == RObj(map["properties" := RObj(map[])])
  {
    var ps := RObj(map[name := schema]);
    assert ResolveEntries(ps, env.defs, seen) == map[];
    assert Resolve(ps, env.defs, seen) == RObj(map[]);
    assert ResolveEntries(RObj(map["properties" := ps]), env.defs, seen) == map["properties" := RObj(map[])];
  }

  /** A sibling that collides with its target's keyword replaces it: the target's own
      assertion is gone, so the inlined schema accepts exactly what the sibling accepts. */
  lemma CollidingSiblingReplaces(env: Env, node: Raw, name: string, k: string, a: Raw, b: Raw, v: Json)
    requires '/' !in name && k !in APPLICATORS && k !in DROPPED_KEYS && Inert(a) && Inert(b)
    requires name in env.defs && env.defs[name] == RObj(map[k := a]) && name in env.rank
    requires node == RObj(map["$ref" := RAtom(SStr(name)), k := b])
    ensures Accepts(env, env.rank[name] + 1, node, v) <==> env.holds(k, a, v) && env.holds(k, b, v)
    ensures Accepts(env, 0, Resolve(node, env.defs, {}), v) <==> env.holds(k, b, v)
  {
    var bound := env.rank[name] + 1;
    CollidingSiblingAccepts(env, bound, node, name, k, a, b, v);
    CollidingSiblingResolves(env, node, name, k, a, b);
    AssertsItself(env, 0, k, b, v);
  }

  lemma AssertsItself(env: Env, bound: nat, k: string, value: Raw, v: Json)
    requires k !in APPLICATORS && k !in DROPPED_KEYS
    ensures Accepts(env, bound, RObj(map[k := value]), v) <==> env.holds(k, value, v)
  {
    OneKeyword(env, bound, k, value, v);
  }

  lemma CollidingSiblingAccepts(env: Env, bound: nat, node: Raw, name: string, k: string, a: Raw, b: Raw, v: Json)
    requires '/' !in name && k !in APPLICATORS && k !in DROPPED_KEYS
    requires name in env.defs && env.defs[name] == RObj(map[k := a]) && name in env.rank && env.rank[name] < bound
    requires node == RObj(map["$ref" := RAtom(SStr(name)), k := b])
    ensures Accepts(env, bound, node, v) <==> env.holds(k, a, v) && env.holds(k, b, v)
  {
    WholeName(name);
    SplitRef(env, bound, node.entries, v);
    assert node.entries - {"$ref"} == map[k := b];
    AssertsItself(env, bound, k, b, v);
    AssertsItself(env, env.rank[name], k, a, v);
  }

  lemma CollidingSiblingResolves(env: Env, node: Raw, name: string, k: string, a: Raw, b: Raw)
    requires '/' !in name && k !in APPLICATORS && k !in DROPPED_KEYS && Inert(a) && Inert(b)
    requires name in env.defs && env.defs[name] == RObj(map[k := a])
    requires node == RObj(map["$ref" := RAtom(SStr(name)), k := b])
    ensures Resolve(node, env.defs, {}) == RObj(map[k := b])
  {
    WholeName(name);
    OneEntryStays(env.defs[name], k, a, env.defs, {name});
    InertStays(b, env.defs, {});
    assert Unwrap(node.entries) == node.entries;
    assert ResolveEntries(node, env.defs, {}) == map[k := b];
    assert {} + {name} == {name};
    assert map[k := a] + map[k := b] == map[k := b];
  }

  lemma OneEntryStays(node: Raw, k: string, value: Raw, defs: Defs, seen: set<string>)
    requires k !in APPLICATORS && k !in DROPPED_KEYS && Inert(value) && node == RObj(map[k := value])
    ensures Resolve(node, defs, seen) == node
  {
    InertStays(value, defs, seen);
    assert ResolveEntries(node, defs, seen) == map[k := value];
  }

  lemma {:induction false} WholeName(name: string)
    requires '/' !in name
    ensures SplitOn(name, '/') == [name]
  {
    if name != "" {
      WholeName(name[1..]);
      assert [name[0]] + name[1..] == name && name[0] in name;
    }
  }
}
