/**
 From an inlined schema to its structural tree (_structural_node, field_summary), what the
 tree keeps of the schema's meaning, and with RefInlining and DiffSoundness the whole way:
 from two schemas as loaded, $refs and all, to the values they accept.
 */
module StructuralReduction {
  import opened Common
  import opened JsonValues
  import opened StructuralNodes
  import opened RefInlining
  import SchemaDiff
  import DiffSoundness

  // ---------------------------------------------------------------- _structural_node

  function NameOf(key: NumberKey): string {
    match key
    case Minimum => "minimum"
    case ExclusiveMinimum => "exclusiveMinimum"
    case Maximum => "maximum"
    case ExclusiveMaximum => "exclusiveMaximum"
    case MinLength => "minLength"
    case MaxLength => "maxLength"
    case MinItems => "minItems"
    case MaxItems => "maxItems"
    case MultipleOf => "multipleOf"
  }

  const NUMBER_NAMES: set<string> := set key: NumberKey :: NameOf(key)

  const ARRAY_KEYS: set<NumberKey> := {MinItems, MaxItems}

  const ALL_KEYS: set<NumberKey> := set key: NumberKey | true

  predicate IsText(value: Raw) {
    value.RAtom? && value.value.SStr?
  }

  predicate IsNumber(value: Raw) {
    value.RAtom? && (value.value.SInt? || value.value.SFloat?)
  }

  function NumberOf(value: Raw): real
    requires IsNumber(value)
  {
    ToJson(value.value).n
  }

  predicate HasList(m: map<string, Raw>, key: string) {
    key in m && m[key].RList?
  }

  predicate HasKind(m: map<string, Raw>, kind: string) {
    "type" in m && m["type"] == RAtom(SStr(kind))
  }

  function ScalarTypeNamed(name: string): Option<ScalarType> {
    if name == "string" then Some(StringT)
    else if name == "integer" then Some(IntegerT)
    else if name == "number" then Some(NumberT)
    else if name == "boolean" then Some(BooleanT)
    else if name == "null" then Some(NullT)
    else None
  }

  /** node.get("properties"), when it is not empty. */
  function DeclaredProperties(m: map<string, Raw>): map<string, Raw> {
    if "properties" in m && m["properties"].RObj? then m["properties"].entries else map[]
  }

  /** set(node.get("required", [])) */
  function RequiredNames(m: map<string, Raw>): set<string> {
    if HasList(m, "required") then set x | x in m["required"].items && IsText(x) :: x.value.s else {}
  }

  predicate LimitsReadable(m: map<string, Raw>) {
    && (forall k | k in m && k in NUMBER_NAMES :: IsNumber(m[k]))
    && ("pattern" in m ==> IsText(m["pattern"]))
  }

  function LimitsOf(m: map<string, Raw>, keys: set<NumberKey>, patterned: bool): Limits
    requires LimitsReadable(m)
  {
    Limits(map key: NumberKey | key in keys && NameOf(key) in m :: NumberOf(m[NameOf(key)]),
           if patterned && "pattern" in m then Some(m["pattern"].value.s) else None)
  }

  /** An inlined schema of well-typed keywords, with scalar literals and no cycle. */
  predicate Reducible(node: Raw) {
    && node.RObj? && "$cycle" !in node.entries
    && var m := node.entries;
       if "const" in m then m["const"].RAtom?
       else if HasList(m, "enum") then forall x | x in m["enum"].items :: x.RAtom?
       else if HasList(m, "anyOf") then forall x | x in m["anyOf"].items :: Reducible(x)
       else if HasList(m, "oneOf") then forall x | x in m["oneOf"].items :: Reducible(x)
       else if HasKind(m, "array") then ("items" in m ==> Reducible(m["items"])) && LimitsReadable(m)
       else if HasKind(m, "object") then
         if DeclaredProperties(m) != map[] then
           forall name | name in m["properties"].entries :: Reducible(m["properties"].entries[name])
         else "additionalProperties" in m && m["additionalProperties"].RObj? ==> Reducible(m["additionalProperties"])
       else ("type" in m ==> IsText(m["type"]) && ScalarTypeNamed(m["type"].value.s).Some?) && LimitsReadable(m)
  }

  function Structural(node: Raw): Node
    requires Reducible(node)
  {
    var m := node.entries;
    if "const" in m then ConstNode(m["const"].value)
    else if HasList(m, "enum") then
      EnumNode(seq(|m["enum"].items|, i requires 0 <= i < |m["enum"].items| => m["enum"].items[i].value))
    else if HasList(m, "anyOf") then
      UnionNode(AnyOf, seq(|m["anyOf"].items|,
                           i requires 0 <= i < |m["anyOf"].items| => Structural(m["anyOf"].items[i])))
    else if HasList(m, "oneOf") then
      UnionNode(OneOf, seq(|m["oneOf"].items|,
                           i requires 0 <= i < |m["oneOf"].items| => Structural(m["oneOf"].items[i])))
    else if HasKind(m, "array") then
      ArrayNode(if "items" in m then Structural(m["items"]) else ScalarNode(AnyT, NO_LIMITS),
                LimitsOf(m, ARRAY_KEYS, false))
    else if HasKind(m, "object") then
      if DeclaredProperties(m) != map[] then
        ObjectNode(map name | name in m["properties"].entries ::
                     Field(name in RequiredNames(m), Structural(m["properties"].entries[name])))
      else if "additionalProperties" in m && m["additionalProperties"].RObj? then
        MapNode(Structural(m["additionalProperties"]))
      else ObjectNode(map[])
    else
      ScalarNode(if "type" in m then ScalarTypeNamed(m["type"].value.s).value else AnyT, LimitsOf(m, ALL_KEYS, true))
  }

  /** Which keyword makes the node, in the order they are tried, and what the node holds. */
  lemma KindByKeywords(node: Raw)
    requires Reducible(node)
    ensures var m, tree := node.entries, Structural(node);
            var literal := "const" in m;
            var listed := !literal && HasList(m, "enum");
            var some := !literal && !listed && HasList(m, "anyOf");
            var one := !literal && !listed && !some && HasList(m, "oneOf");
            var plain := !literal && !listed && !some && !one;
            && (literal <==> tree.ConstNode?)
            && (listed <==> tree.EnumNode?)
            && (some <==> tree.UnionNode? && tree.op.AnyOf?)
            && (one <==> tree.UnionNode? && tree.op.OneOf?)
            && (plain && HasKind(m, "array") <==> tree.ArrayNode?)
            && (plain && HasKind(m, "object") <==> tree.ObjectNode? || tree.MapNode?)
            && (tree.MapNode? <==> plain && HasKind(m, "object") && DeclaredProperties(m) == map[]
                                   && "additionalProperties" in m && m["additionalProperties"].RObj?)
            && (tree.ObjectNode? ==> tree.properties.Keys == DeclaredProperties(m).Keys)
            && (tree.UnionNode? ==> |tree.members| == |m[if some then "anyOf" else "oneOf"].items|)
            && (tree.EnumNode? ==> |tree.values| == |m["enum"].items|)
            && (tree.ArrayNode? ==> tree.limits.pattern.None? && tree.limits.numbers.Keys <= {MinItems, MaxItems})
  {
    var m := node.entries;
    assert HasKind(m, "array") ==> !HasKind(m, "object") by {
      assert "array" != "object";
    }
  }

  // ---------------------------------------------------------------- what the keywords assert

  ghost predicate TypeHolds(name: string, v: Json) {
    if name == "array" then v.JArr?
    else if name == "object" then v.JObj?
    else ScalarTypeNamed(name).Some? && HasType(ScalarTypeNamed(name).value, v)
  }

  /** The keywords of Validation section 6 of JSON Schema 2020-12. Any other keyword with no
      schema inside annotates and asserts nothing. */
  ghost predicate Asserts(re: Regex, k: string, value: Raw, v: Json) {
    if k == "type" then IsText(value) ==> TypeHolds(value.value.s, v)
    else if k == "const" then value.RAtom? ==> v == ToJson(value.value)
    else if k == "enum" then value.RList? ==> exists x | x in value.items :: x.RAtom? && v == ToJson(x.value)
    else if k == "required" then
      value.RList? && v.JObj? ==> forall x | x in value.items && IsText(x) :: x.value.s in v.fields
    else if k == "pattern" then IsText(value) && v.JStr? ==> re(value.value.s, v.s)
    else forall key: NumberKey | NameOf(key) == k && IsNumber(value) :: NumberHolds(key, NumberOf(value), v)
  }

  /** The keywords and type names in their own words. */
  lemma KeywordsSpelled(re: Regex, value: Raw, v: Json)
    requires IsNumber(value)
    ensures v.JNum? ==>
              && (Asserts(re, "minimum", value, v) <==> v.n >= NumberOf(value))
              && (Asserts(re, "exclusiveMinimum", value, v) <==> v.n > NumberOf(value))
              && (Asserts(re, "maximum", value, v) <==> v.n <= NumberOf(value))
              && (Asserts(re, "exclusiveMaximum", value, v) <==> v.n < NumberOf(value))
              && (Asserts(re, "multipleOf", value, v) <==> IsMultiple(v.n, NumberOf(value)))
    ensures v.JStr? ==>
              && (Asserts(re, "minLength", value, v) <==> |v.s| as real >= NumberOf(value))
              && (Asserts(re, "maxLength", value, v) <==> |v.s| as real <= NumberOf(value))
    ensures v.JArr? ==>
              && (Asserts(re, "minItems", value, v) <==> |v.items| as real >= NumberOf(value))
              && (Asserts(re, "maxItems", value, v) <==> |v.items| as real <= NumberOf(value))
  {
    hide Asserts;
    KeywordIs(re, Minimum, "minimum", value, v);
    KeywordIs(re, ExclusiveMinimum, "exclusiveMinimum", value, v);
    KeywordIs(re, Maximum, "maximum", value, v);
    KeywordIs(re, ExclusiveMaximum, "exclusiveMaximum", value, v);
    KeywordIs(re, MultipleOf, "multipleOf", value, v);
    KeywordIs(re, MinLength, "minLength", value, v);
    KeywordIs(re, MaxLength, "maxLength", value, v);
    KeywordIs(re, MinItems, "minItems", value, v);
    KeywordIs(re, MaxItems, "maxItems", value, v);
  }

  lemma KeywordIs(re: Regex, key: NumberKey, name: string, value: Raw, v: Json)
    requires IsNumber(value) && NameOf(key) == name
    ensures Asserts(re, name, value, v) <==> NumberHolds(key, NumberOf(value), v)
  {
    AssertsBound(re, key, value, v);
  }

  lemma TypesSpelled(v: Json)
    ensures TypeHolds("string", v) <==> v.JStr?
    ensures TypeHolds("integer", v) <==> v.JNum? && v.n == v.n.Floor as real
    ensures TypeHolds("number", v) <==> v.JNum?
    ensures TypeHolds("boolean", v) <==> v.JBool?
    ensures TypeHolds("null", v) <==> v.JNull?
    ensures TypeHolds("array", v) <==> v.JArr?
    ensures TypeHolds("object", v) <==> v.JObj?
  {
  }

  ghost predicate Standard(env: Env, re: Regex) {
    forall k, value, v :: env.holds(k, value, v) <==> Asserts(re, k, value, v)
  }

  // ---------------------------------------------------------------- what the tree keeps

  const ANNOTATIONS := {"format", "discriminator"}

  /** The schemas whose tree forgets no assertion but that of additionalProperties beside
      declared properties. Exact: there it must say false. Without exact it may say anything,
      and members of a oneOf are told apart by a required const or by their values' class. */
  ghost predicate Kept(node: Raw, exact: bool)
    requires Reducible(node)
    decreases node
  {
    var m := node.entries;
    var keys := m.Keys - ANNOTATIONS;
    if "const" in m then
      keys <= {"const", "type"}
          && ("type" in m ==> IsText(m["type"]) && TypeHolds(m["type"].value.s, ToJson(m["const"].value)))
    else if HasList(m, "enum") then
      && keys <= {"enum", "type"}
      && ("type" in m ==> IsText(m["type"])
                          && forall x | x in m["enum"].items :: TypeHolds(m["type"].value.s, ToJson(x.value)))
    else if HasList(m, "anyOf") then
      keys <= {"anyOf"} && forall x | x in m["anyOf"].items :: Kept(x, exact)
    else if HasList(m, "oneOf") then
      && keys <= {"oneOf"} && (forall x | x in m["oneOf"].items :: Kept(x, exact))
      && (exact || DiffSoundness.PairwiseExclusive(Structural(node).members))
    else if HasKind(m, "array") then
      keys <= {"type", "items", "minItems", "maxItems"} && ("items" in m ==> Kept(m["items"], exact))
    else if HasKind(m, "object") then
      if DeclaredProperties(m) != map[] then
        && keys <= {"type", "properties", "required", "additionalProperties"}
        && RequiredNames(m) <= DeclaredProperties(m).Keys
        && (exact ==> "additionalProperties" in m && m["additionalProperties"] == RAtom(SBool(false)))
        && forall name | name in m["properties"].entries :: Kept(m["properties"].entries[name], exact)
      else
        && keys <= {"type", "properties", "additionalProperties"}
        && ("additionalProperties" in m ==>
              if m["additionalProperties"].RObj? then Kept(m["additionalProperties"], exact)
              else m["additionalProperties"] == RAtom(SBool(true)))
    else keys <= {"type", "pattern"} + NUMBER_NAMES
  }

  /** The value's objects carry declared properties only, wherever the schema declares any:
      read through some accepting member of a union. */
  ghost predicate DeclaredOnly(env: Env, node: Raw, v: Json)
    requires Reducible(node)
    decreases node
  {
    var m := node.entries;
    if "const" in m || HasList(m, "enum") then true
    else if HasList(m, "anyOf") then SomeTrue(DeclaredMembers(env, m["anyOf"], v))
    else if HasList(m, "oneOf") then SomeTrue(DeclaredMembers(env, m["oneOf"], v))
    else if HasKind(m, "array") then
      "items" in m && v.JArr? ==> forall x | x in v.items :: DeclaredOnly(env, m["items"], x)
    else if HasKind(m, "object") && v.JObj? then
      if DeclaredProperties(m) != map[] then
        && v.fields.Keys <= m["properties"].entries.Keys
        && forall name | name in m["properties"].entries && name in v.fields ::
             DeclaredOnly(env, m["properties"].entries[name], v.fields[name])
      else
        "additionalProperties" in m && m["additionalProperties"].RObj? ==>
          forall name | name in v.fields :: DeclaredOnly(env, m["additionalProperties"], v.fields[name])
    else true
  }

  /** Which of the listed schemas accept the value with declared properties only. */
  ghost function DeclaredMembers(env: Env, list: Raw, v: Json): seq<bool>
    requires list.RList? && forall x | x in list.items :: Reducible(x)
    decreases list
  {
    seq(|list.items|, i requires 0 <= i < |list.items| =>
      Accepts(env, 0, list.items[i], v) && DeclaredOnly(env, list.items[i], v))
  }

  /** The tree's verdict against the schema's: it is the schema's on declared properties, and
      in a closed schema every accepted value has declared properties only. */
  ghost predicate Agree(exact: bool, declared: bool, accepts: bool, valid: bool) {
    (valid <==> accepts && declared) && (exact && accepts ==> declared)
  }

  ghost predicate Agrees(env: Env, re: Regex, node: Raw, exact: bool, v: Json)
    requires Reducible(node)
  {
    Agree(exact, DeclaredOnly(env, node, v), Accepts(env, 0, node, v), Valid(re, Structural(node), v))
  }

  /** Annotations aside, an object asserts what its keywords assert one by one. */
  lemma AcceptsParts(env: Env, re: Regex, node: Raw, ks: set<string>, v: Json)
    requires Standard(env, re) && node.RObj? && node.entries.Keys - ANNOTATIONS <= ks
    ensures Accepts(env, 0, node, v) <==> forall k | k in ks && k in node.entries :: Keyword(env, 0, node, k, v)
  {
    forall k | k in node.entries && k !in ks
      ensures Keyword(env, 0, node, k, v)
    {
      assert k in node.entries.Keys;
      assert forall key: NumberKey :: NameOf(key) != k;
      assert Asserts(re, k, node.entries[k], v);
    }
  }

  lemma AssertsAlone(env: Env, re: Regex, node: Raw, k: string, v: Json)
    requires Standard(env, re) && node.RObj? && k in node.entries && k !in APPLICATORS + DROPPED_KEYS
    ensures Keyword(env, 0, node, k, v) <==> Asserts(re, k, node.entries[k], v)
  {
  }

  lemma TypeAlone(env: Env, re: Regex, node: Raw, v: Json)
    requires Standard(env, re) && node.RObj? && "type" in node.entries && IsText(node.entries["type"])
    ensures Keyword(env, 0, node, "type", v) <==> TypeHolds(node.entries["type"].value.s, v)
  {
    AssertsAlone(env, re, node, "type", v);
  }

  lemma NamesDiffer(key: NumberKey)
    ensures forall other :: NameOf(other) == NameOf(key) ==> other == key
    ensures NameOf(key) !in APPLICATORS + DROPPED_KEYS
    ensures NameOf(key) !in {"type", "const", "enum", "required", "pattern"}
  {
  }

  lemma AssertsBound(re: Regex, key: NumberKey, value: Raw, v: Json)
    requires IsNumber(value)
    ensures Asserts(re, NameOf(key), value, v) <==> NumberHolds(key, NumberOf(value), v)
  {
    NamesDiffer(key);
  }

  /** The numeric keywords and the pattern, one by one or as the node's limits. */
  lemma LimitsKept(env: Env, re: Regex, node: Raw, keys: set<NumberKey>, patterned: bool, v: Json)
    requires Standard(env, re) && node.RObj? && LimitsReadable(node.entries)
    ensures LimitsHold(re, LimitsOf(node.entries, keys, patterned), v)
            <==> (forall key | key in keys && NameOf(key) in node.entries :: Keyword(env, 0, node, NameOf(key), v))
                 && (patterned && "pattern" in node.entries ==> Keyword(env, 0, node, "pattern", v))
  {
    var m := node.entries;
    var limits := LimitsOf(m, keys, patterned);
    hide Keyword, NumberHolds;
    forall key | key in keys && NameOf(key) in m
      ensures Keyword(env, 0, node, NameOf(key), v) <==> NumberHolds(key, limits.numbers[key], v)
    {
      assert NameOf(key) in NUMBER_NAMES;
      NamesDiffer(key);
      AssertsAlone(env, re, node, NameOf(key), v);
      AssertsBound(re, key, m[NameOf(key)], v);
    }
    hide Asserts, IsNumber, NUMBER_NAMES;
    if "pattern" in m {
      PatternAlone(env, re, node, v);
    }
  }

  lemma PatternAlone(env: Env, re: Regex, node: Raw, v: Json)
    requires Standard(env, re) && node.RObj? && "pattern" in node.entries && IsText(node.entries["pattern"])
    ensures Keyword(env, 0, node, "pattern", v) <==> (v.JStr? ==> re(node.entries["pattern"].value.s, v.s))
  {
    AssertsAlone(env, re, node, "pattern", v);
  }

  // ---------------------------------------------------------------- kind by kind

  lemma ConstKept(env: Env, re: Regex, node: Raw, v: Json)
    requires Standard(env, re) && node.RObj? && "const" in node.entries && node.entries["const"].RAtom?
    requires node.entries.Keys - ANNOTATIONS <= {"const", "type"}
    requires "type" in node.entries ==>
               IsText(node.entries["type"])
                   && TypeHolds(node.entries["type"].value.s, ToJson(node.entries["const"].value))
    ensures Accepts(env, 0, node, v) <==> v == ToJson(node.entries["const"].value)
  {
    AcceptsParts(env, re, node, {"const", "type"}, v);
    AssertsAlone(env, re, node, "const", v);
    if "type" in node.entries {
      TypeAlone(env, re, node, v);
    }
  }

  ghost predicate Listed(xs: seq<Raw>, v: Json) {
    exists x | x in xs :: x.RAtom? && v == ToJson(x.value)
  }

  lemma EnumKept(env: Env, re: Regex, node: Raw, xs: seq<Raw>, v: Json)
    requires Standard(env, re) && node.RObj? && "enum" in node.entries && node.entries["enum"] == RList(xs)
    requires node.entries.Keys - ANNOTATIONS <= {"enum", "type"}
    requires forall x | x in xs :: x.RAtom?
    requires "type" in node.entries ==>
               IsText(node.entries["type"]) && forall x | x in xs ::
                   TypeHolds(node.entries["type"].value.s, ToJson(x.value))
    ensures Accepts(env, 0, node, v) <==> Listed(xs, v)
  {
    AcceptsParts(env, re, node, {"enum", "type"}, v);
    AssertsAlone(env, re, node, "enum", v);
    assert Keyword(env, 0, node, "enum", v) <==> Listed(xs, v);
    if "type" in node.entries {
      TypeAlone(env, re, node, v);
    }
  }

  lemma LiteralsListed(xs: seq<Raw>, cs: seq<Scalar>, v: Json)
    requires |cs| == |xs| && forall i | 0 <= i < |xs| :: xs[i].RAtom? && cs[i] == xs[i].value
    ensures Listed(xs, v) <==> exists c | c in cs :: v == ToJson(c)
  {
    if x :| x in xs && x.RAtom? && v == ToJson(x.value) {
      var i :| 0 <= i < |xs| && xs[i] == x;
      assert cs[i] in cs;
    }
    if c :| c in cs && v == ToJson(c) {
      var i :| 0 <= i < |cs| && cs[i] == c;
      assert xs[i] in xs;
    }
  }

  lemma ScalarKept(env: Env, re: Regex, node: Raw, typ: ScalarType, v: Json)
    requires Standard(env, re) && node.RObj? && LimitsReadable(node.entries)
    requires node.entries.Keys - ANNOTATIONS <= {"type", "pattern"} + NUMBER_NAMES
    requires if "type" in node.entries
             then IsText(node.entries["type"]) && ScalarTypeNamed(node.entries["type"].value.s) == Some(typ)
             else typ == AnyT
    ensures Accepts(env, 0, node, v) <==> HasType(typ, v) && LimitsHold(re, LimitsOf(node.entries, ALL_KEYS, true), v)
  {
    hide Accepts, Keyword, LimitsHold, LimitsOf;
    var ks := {"type", "pattern"} + NUMBER_NAMES;
    AcceptsParts(env, re, node, ks, v);
    LimitsKept(env, re, node, ALL_KEYS, true, v);
    if "type" in node.entries {
      TypeAlone(env, re, node, v);
    }
    assert forall k :: k in ks <==> k == "type" || k == "pattern" || exists key: NumberKey :: NameOf(key) == k;
  }

  /** Members judged alike one by one are judged alike together, unless several of a oneOf's
      accept one value. */
  lemma MembersAgree(re: Regex, exact: bool, op: UnionOp, bs: seq<bool>, ds: seq<bool>, ms: seq<Node>, v: Json)
    requires |bs| == |ds| == |ms|
    requires forall i | 0 <= i < |bs| :: (ds[i] ==> bs[i]) && Agree(exact, ds[i], bs[i], Valid(re, ms[i], v))
    requires op.OneOf? ==> exact || forall i, j | 0 <= i < j < |bs| :: !(bs[i] && bs[j])
    ensures Agree(exact, SomeTrue(ds), if op.OneOf? then OneTrue(bs) else SomeTrue(bs), Valid(re, UnionNode(op, ms), v))
  {
    UnionOfVerdicts(re, op, ds, ms, v);
    if op.OneOf? {
      OnesAgree(exact, bs, ds);
    } else if exact && SomeTrue(bs) {
      var i :| 0 <= i < |bs| && bs[i];
      assert ds[i];
    }
  }

  lemma AnyOfVerdicts(re: Regex, ds: seq<bool>, ms: seq<Node>, v: Json)
    requires |ds| == |ms| && forall i | 0 <= i < |ms| :: Valid(re, ms[i], v) <==> ds[i]
    ensures Valid(re, UnionNode(AnyOf, ms), v) <==> SomeTrue(ds)
  {
    if i :| 0 <= i < |ds| && ds[i] {
      assert Valid(re, ms[i], v);
    }
  }

  lemma OneOfVerdicts(re: Regex, ds: seq<bool>, ms: seq<Node>, v: Json)
    requires |ds| == |ms| && forall i | 0 <= i < |ms| :: Valid(re, ms[i], v) <==> ds[i]
    ensures Valid(re, UnionNode(OneOf, ms), v) <==> OneTrue(ds)
  {
    assert OneTrue(ds) <==> exists i | 0 <= i < |ms| ::
        Valid(re, ms[i], v) && forall j | 0 <= j < |ms| && j != i :: !Valid(re, ms[j], v);
  }

  lemma UnionOfVerdicts(re: Regex, op: UnionOp, ds: seq<bool>, ms: seq<Node>, v: Json)
    requires |ds| == |ms| && forall i | 0 <= i < |ms| :: Valid(re, ms[i], v) <==> ds[i]
    ensures Valid(re, UnionNode(op, ms), v) <==> if op.OneOf? then OneTrue(ds) else SomeTrue(ds)
  {
    hide Valid;
    AnyOfVerdicts(re, ds, ms, v);
    OneOfVerdicts(re, ds, ms, v);
  }

  lemma OnesAgree(exact: bool, bs: seq<bool>, ds: seq<bool>)
    requires |bs| == |ds| && forall i | 0 <= i < |bs| :: (ds[i] ==> bs[i]) && (exact ==> (bs[i] ==> ds[i]))
    requires exact || forall i, j | 0 <= i < j < |bs| :: !(bs[i] && bs[j])
    ensures OneTrue(ds) <==> OneTrue(bs) && SomeTrue(ds)
    ensures exact && OneTrue(bs) ==> SomeTrue(ds)
  {
    if OneTrue(bs) && SomeTrue(ds) {
      var k :| 0 <= k < |ds| && ds[k];
      assert bs[k];
    }
  }

  lemma UnionParts(env: Env, re: Regex, node: Raw, key: string, v: Json)
    requires Standard(env, re) && node.RObj? && (key == "anyOf" || key == "oneOf") && HasList(node.entries, key)
    requires node.entries.Keys - ANNOTATIONS <= {key}
    ensures var bs := Verdicts(env, 0, node.entries[key], v);
            Accepts(env, 0, node, v) <==> if key == "oneOf" then OneTrue(bs) else SomeTrue(bs)
  {
    AcceptsParts(env, re, node, {key}, v);
  }

  /** Every element is accepted by the items schema, or there is none. */
  ghost predicate ItemsAccepted(env: Env, m: map<string, Raw>, v: Json) {
    "items" in m && v.JArr? ==> forall x | x in v.items :: Accepts(env, 0, m["items"], x)
  }

  lemma ArrayLimits(env: Env, re: Regex, node: Raw, v: Json)
    requires Standard(env, re) && node.RObj? && LimitsReadable(node.entries)
    ensures LimitsHold(re, LimitsOf(node.entries, ARRAY_KEYS, false), v)
            <==> ("minItems" in node.entries ==> Keyword(env, 0, node, "minItems", v))
                 && ("maxItems" in node.entries ==> Keyword(env, 0, node, "maxItems", v))
  {
    LimitsKept(env, re, node, ARRAY_KEYS, false, v);
    assert NameOf(MinItems) == "minItems" && NameOf(MaxItems) == "maxItems";
  }

  lemma ArrayParts(env: Env, re: Regex, node: Raw, v: Json)
    requires Standard(env, re) && node.RObj? && HasKind(node.entries, "array") && LimitsReadable(node.entries)
    requires node.entries.Keys - ANNOTATIONS <= {"type", "items", "minItems", "maxItems"}
    ensures Accepts(env, 0, node, v)
            <==> && v.JArr? && LimitsHold(re, LimitsOf(node.entries, ARRAY_KEYS, false), v)
                 && ItemsAccepted(env, node.entries, v)
  {
    AcceptsParts(env, re, node, {"type", "items", "minItems", "maxItems"}, v);
    ArrayLimits(env, re, node, v);
    TypeAlone(env, re, node, v);
    assert "items" in node.entries ==> (Keyword(env, 0, node, "items", v) <==> ItemsAccepted(env, node.entries, v));
  }

  ghost predicate PropertiesAccepted(env: Env, m: map<string, Raw>, v: Json) {
    var ps := DeclaredProperties(m);
    v.JObj? ==> forall name | name in ps && name in v.fields :: Accepts(env, 0, ps[name], v.fields[name])
  }

  lemma RequiredAlone(env: Env, re: Regex, node: Raw, v: Json)
    requires Standard(env, re) && node.RObj? && "required" in node.entries && v.JObj?
    ensures Keyword(env, 0, node, "required", v) <==> RequiredNames(node.entries) <= v.fields.Keys
  {
    AssertsAlone(env, re, node, "required", v);
    var value := node.entries["required"];
    if value.RList? {
      forall x | x in value.items && IsText(x)
        ensures x.value.s in RequiredNames(node.entries)
      {
      }
    }
  }

  lemma PropertiesAlone(env: Env, re: Regex, node: Raw, v: Json)
    requires node.RObj? && "properties" in node.entries
    ensures Keyword(env, 0, node, "properties", v) <==> PropertiesAccepted(env, node.entries, v)
  {
  }

  /** Every undeclared property is accepted by additionalProperties. */
  ghost predicate OthersAccepted(env: Env, m: map<string, Raw>, v: Json) {
    "additionalProperties" in m && v.JObj? ==>
      forall name | name in v.fields && name !in DeclaredProperties(m) ::
        Accepts(env, 0, m["additionalProperties"], v.fields[name])
  }

  lemma OthersAlone(env: Env, re: Regex, node: Raw, v: Json)
    requires node.RObj? && "additionalProperties" in node.entries
    ensures Keyword(env, 0, node, "additionalProperties", v) <==> OthersAccepted(env, node.entries, v)
  {
    assert forall name :: Declares(node.entries, name) <==> name in DeclaredProperties(node.entries);
  }

  lemma ObjectParts(env: Env, re: Regex, node: Raw, v: Json)
    requires Standard(env, re) && node.RObj? && HasKind(node.entries, "object")
    requires node.entries.Keys - ANNOTATIONS <= {"type", "properties", "required", "additionalProperties"}
    ensures Accepts(env, 0, node, v)
            <==> && v.JObj? && PropertiesAccepted(env, node.entries, v)
                 && RequiredNames(node.entries) <= v.fields.Keys && OthersAccepted(env, node.entries, v)
  {
    AcceptsParts(env, re, node, {"type", "properties", "required", "additionalProperties"}, v);
    TypeAlone(env, re, node, v);
    if "properties" in node.entries {
      PropertiesAlone(env, re, node, v);
    }
    if "required" in node.entries && v.JObj? {
      RequiredAlone(env, re, node, v);
    }
    if "additionalProperties" in node.entries {
      OthersAlone(env, re, node, v);
    }
  }

  /** A closed object accepts declared properties only; any other one at least those. */
  lemma OthersClosed(env: Env, m: map<string, Raw>, v: Json)
    requires v.JObj?
    ensures v.fields.Keys <= DeclaredProperties(m).Keys ==> OthersAccepted(env, m, v)
    ensures "additionalProperties" in m && m["additionalProperties"] == RAtom(SBool(false)) ==>
              (OthersAccepted(env, m, v) <==> v.fields.Keys <= DeclaredProperties(m).Keys)
  {
  }

  /** An object with declared properties against its tree, given that the properties agree. */
  lemma ObjectAgrees(env: Env, re: Regex, node: Raw, fields: Fields, exact: bool,
                     ds: map<string, bool>, declared: bool, v: Json)
    requires Standard(env, re) && node.RObj? && HasKind(node.entries, "object")
    requires node.entries.Keys - ANNOTATIONS <= {"type", "properties", "required", "additionalProperties"}
    requires DeclaredProperties(node.entries) != map[] && fields.Keys == DeclaredProperties(node.entries).Keys
    requires forall name | name in fields :: fields[name].required <==> name in RequiredNames(node.entries)
    requires RequiredNames(node.entries) <= fields.Keys
    requires exact ==>
               && "additionalProperties" in node.entries
               && node.entries["additionalProperties"] == RAtom(SBool(false))
    requires declared <==> (v.JObj? ==> && v.fields.Keys <= fields.Keys
                                        && forall name | name in fields && name in v.fields :: name in ds && ds[name])
    requires v.JObj? ==> forall name | name in fields && name in v.fields ::
               name in ds &&
               Agree(exact, ds[name], Accepts(env, 0, DeclaredProperties(node.entries)[name], v.fields[name]),
                     Valid(re, fields[name].schema, v.fields[name]))
    ensures Agree(exact, declared, Accepts(env, 0, node, v), Valid(re, ObjectNode(fields), v))
  {
    ObjectParts(env, re, node, v);
    if v.JObj? {
      OthersClosed(env, node.entries, v);
      assert RequiredNames(node.entries) <= v.fields.Keys
          <==> forall name | name in fields && fields[name].required :: name in v.fields;
    }
  }

  // ---------------------------------------------------------------- the whole tree

  /** For every schema in the fragment and every value: the tree accepts what the schema
      accepts with declared properties only; a closed schema accepts nothing else. */
  lemma {:induction false} TreeKeepsMeaning(env: Env, re: Regex, node: Raw, exact: bool, v: Json)
    requires Standard(env, re) && Reducible(node) && Kept(node, exact)
    ensures Agrees(env, re, node, exact, v)
    decreases node
  {
    var m := node.entries;
    match Structural(node) {
      case UnionNode(_, _) =>
        UnionKept(env, re, node, if HasList(m, "anyOf") then "anyOf" else "oneOf", exact, v);
      case ArrayNode(_, _) => ArrayKept(env, re, node, exact, v);
      case ObjectNode(_) =>
        if DeclaredProperties(m) != map[] {
          ObjectKept(env, re, node, exact, v);
        } else {
          MapKept(env, re, node, exact, v);
        }
      case MapNode(_) => MapKept(env, re, node, exact, v);
      case _ => LeafKept(env, re, node, exact, v);
    }
  }

  lemma LeafKept(env: Env, re: Regex, node: Raw, exact: bool, v: Json)
    requires Standard(env, re) && Reducible(node) && Kept(node, exact)
    requires var tree := Structural(node); tree.ConstNode? || tree.EnumNode? || tree.ScalarNode?
    ensures Agrees(env, re, node, exact, v)
  {
    match Structural(node) {
      case ConstNode(_) => ConstKept(env, re, node, v);
      case EnumNode(cs) =>
        EnumKept(env, re, node, node.entries["enum"].items, v);
        LiteralsListed(node.entries["enum"].items, cs, v);
      case ScalarNode(typ, _) => ScalarKept(env, re, node, typ, v);
    }
  }

  lemma {:induction false} UnionKept(env: Env, re: Regex, node: Raw, key: string, exact: bool, v: Json)
    requires Standard(env, re) && Reducible(node) && Kept(node, exact)
    requires "const" !in node.entries && !HasList(node.entries, "enum") && HasList(node.entries, key)
    requires key == "anyOf" || (key == "oneOf" && !HasList(node.entries, "anyOf"))
    ensures Agrees(env, re, node, exact, v)
    decreases node, 0
  {
    var list := node.entries[key];
    UnionFacts(env, node, key, exact, v);
    UnionParts(env, re, node, key, v);
    hide Kept, DeclaredOnly, Structural, Reducible;
    forall i | 0 <= i < |list.items|
      ensures Agrees(env, re, list.items[i], exact, v)
    {
      TreeKeepsMeaning(env, re, list.items[i], exact, v);
    }
    if key == "oneOf" && !exact {
      forall i, j | 0 <= i < j < |list.items|
        ensures !(Accepts(env, 0, list.items[i], v) && Accepts(env, 0, list.items[j], v))
      {
        ExclusiveSchemas(env, re, list.items[i], list.items[j], v);
      }
    }
    UnionAgrees(env, re, list, Structural(node).op, Structural(node).members, exact, v);
  }

  /** A union's tree, fragment and declared values are its members'. */
  lemma UnionFacts(env: Env, node: Raw, key: string, exact: bool, v: Json)
    requires Reducible(node) && Kept(node, exact)
    requires "const" !in node.entries && !HasList(node.entries, "enum") && HasList(node.entries, key)
    requires key == "anyOf" || (key == "oneOf" && !HasList(node.entries, "anyOf"))
    ensures node.entries.Keys - ANNOTATIONS <= {key}
    ensures var list, union := node.entries[key], Structural(node);
            && union == UnionNode(if key == "oneOf" then OneOf else AnyOf, union.members)
            && |union.members| == |list.items|
            && (forall x | x in list.items :: x < node && Reducible(x) && Kept(x, exact))
            && (forall i | 0 <= i < |list.items| :: union.members[i] == Structural(list.items[i]))
            && (key == "oneOf" && !exact ==> DiffSoundness.PairwiseExclusive(union.members))
            && (DeclaredOnly(env, node, v) <==> SomeTrue(DeclaredMembers(env, list, v)))
  {
  }

  lemma UnionAgrees(env: Env, re: Regex, list: Raw, op: UnionOp, ms: seq<Node>, exact: bool, v: Json)
    requires list.RList? && |ms| == |list.items|
    requires forall i | 0 <= i < |ms| :: Reducible(list.items[i]) && ms[i] == Structural(list.items[i])
    requires forall i | 0 <= i < |ms| :: Agrees(env, re, list.items[i], exact, v)
    requires op.OneOf? ==> exact || forall i, j | 0 <= i < j < |ms| ::
               !(Accepts(env, 0, list.items[i], v) && Accepts(env, 0, list.items[j], v))
    ensures forall x | x in list.items :: Reducible(x)
    ensures var bs := Verdicts(env, 0, list, v);
            Agree(exact, SomeTrue(DeclaredMembers(env, list, v)), if op.OneOf? then OneTrue(bs) else SomeTrue(bs),
                  Valid(re, UnionNode(op, ms), v))
  {
    var bs, ds := Verdicts(env, 0, list, v), DeclaredMembers(env, list, v);
    forall i | 0 <= i < |ms|
      ensures (ds[i] ==> bs[i]) && Agree(exact, ds[i], bs[i], Valid(re, ms[i], v))
    {
      assert Agrees(env, re, list.items[i], exact, v);
    }
    MembersAgree(re, exact, op, bs, ds, ms, v);
  }

  lemma {:induction false} ArrayKept(env: Env, re: Regex, node: Raw, exact: bool, v: Json)
    requires Standard(env, re) && Reducible(node) && Kept(node, exact) && Structural(node).ArrayNode?
    ensures Agrees(env, re, node, exact, v)
    decreases node, 0
  {
    ArrayParts(env, re, node, v);
    if v.JArr? && "items" in node.entries {
      forall x | x in v.items
        ensures Agrees(env, re, node.entries["items"], exact, x)
      {
        TreeKeepsMeaning(env, re, node.entries["items"], exact, x);
      }
    }
  }

  lemma {:induction false} ObjectKept(env: Env, re: Regex, node: Raw, exact: bool, v: Json)
    requires Standard(env, re) && Reducible(node) && Kept(node, exact) && Structural(node).ObjectNode?
    requires HasKind(node.entries, "object") && DeclaredProperties(node.entries) != map[]
    ensures Agrees(env, re, node, exact, v)
    decreases node, 0
  {
    var ps, fields := DeclaredProperties(node.entries), Structural(node).properties;
    var ds: map<string, bool> := map[];
    if v.JObj? {
      ds := map name | name in ps && name in v.fields :: DeclaredOnly(env, ps[name], v.fields[name]);
      forall name | name in fields && name in v.fields
        ensures Agree(exact, ds[name], Accepts(env, 0, ps[name], v.fields[name]),
                      Valid(re, fields[name].schema, v.fields[name]))
      {
        TreeKeepsMeaning(env, re, ps[name], exact, v.fields[name]);
      }
    }
    ObjectAgrees(env, re, node, fields, exact, ds, DeclaredOnly(env, node, v), v);
  }

  lemma {:induction false} MapKept(env: Env, re: Regex, node: Raw, exact: bool, v: Json)
    requires Standard(env, re) && Reducible(node) && Kept(node, exact)
    requires Structural(node).MapNode? || Structural(node) == ObjectNode(map[])
    requires HasKind(node.entries, "object") && DeclaredProperties(node.entries) == map[]
    ensures Agrees(env, re, node, exact, v)
    decreases node, 0
  {
    var m := node.entries;
    ObjectParts(env, re, node, v);
    assert "required" !in m.Keys - ANNOTATIONS;
    assert RequiredNames(m) == {};
    if v.JObj? && "additionalProperties" in m && m["additionalProperties"].RObj? {
      assert Structural(node) == MapNode(Structural(m["additionalProperties"]));
      forall name | name in v.fields
        ensures Agrees(env, re, m["additionalProperties"], exact, v.fields[name])
      {
        TreeKeepsMeaning(env, re, m["additionalProperties"], exact, v.fields[name]);
      }
    }
  }

  // ---------------------------------------------------------------- members of a oneOf

  /** An accepted value has a class the tree's surface names, declared properties or not. */
  lemma {:induction false} AcceptedClass(env: Env, re: Regex, node: Raw, exact: bool, v: Json)
    requires Standard(env, re) && Reducible(node) && Kept(node, exact) && Accepts(env, 0, node, v)
    ensures ClassSeen(node, v)
    decreases node, 1
  {
    if Structural(node).UnionNode? {
      AcceptedUnionClass(env, re, node, if HasList(node.entries, "anyOf") then "anyOf" else "oneOf", exact, v);
    } else {
      AcceptedPlainClass(env, re, node, exact, v);
    }
  }

  lemma AcceptedPlainClass(env: Env, re: Regex, node: Raw, exact: bool, v: Json)
    requires Standard(env, re) && Reducible(node) && Kept(node, exact) && Accepts(env, 0, node, v)
    requires !Structural(node).UnionNode?
    ensures ClassSeen(node, v)
  {
    match Structural(node) {
      case ConstNode(_) => ConstKept(env, re, node, v);
      case EnumNode(_) => AcceptedEnumClass(env, re, node, exact, v);
      case ScalarNode(typ, _) => ScalarKept(env, re, node, typ, v);
      case _ => AcceptedContainerClass(env, re, node, exact, v);
    }
  }

  lemma AcceptedContainerClass(env: Env, re: Regex, node: Raw, exact: bool, v: Json)
    requires Standard(env, re) && Reducible(node) && Kept(node, exact) && Accepts(env, 0, node, v)
    requires var tree := Structural(node); tree.ArrayNode? || tree.ObjectNode? || tree.MapNode?
    ensures ClassSeen(node, v)
  {
    if HasKind(node.entries, "array") {
      ArrayParts(env, re, node, v);
    } else {
      ObjectParts(env, re, node, v);
    }
  }

  lemma AcceptedEnumClass(env: Env, re: Regex, node: Raw, exact: bool, v: Json)
    requires Standard(env, re) && Reducible(node) && Kept(node, exact) && Accepts(env, 0, node, v)
    requires Structural(node).EnumNode?
    ensures ClassSeen(node, v)
  {
    var xs := node.entries["enum"].items;
    EnumKept(env, re, node, xs, v);
    LiteralsListed(xs, Structural(node).values, v);
  }

  predicate ClassSeen(node: Raw, v: Json)
    requires Reducible(node)
  {
    DiffSoundness.ClassOf(v) in DiffSoundness.Classes(Structural(node))
  }

  lemma {:induction false} AcceptedUnionClass(env: Env, re: Regex, node: Raw, key: string, exact: bool, v: Json)
    requires Standard(env, re) && Reducible(node) && Kept(node, exact) && Accepts(env, 0, node, v)
    requires "const" !in node.entries && !HasList(node.entries, "enum") && HasList(node.entries, key)
    requires key == "anyOf" || (key == "oneOf" && !HasList(node.entries, "anyOf"))
    ensures ClassSeen(node, v)
    decreases node, 0
  {
    var xs := node.entries[key].items;
    UnionParts(env, re, node, key, v);
    var bs := Verdicts(env, 0, node.entries[key], v);
    var i :| 0 <= i < |bs| && bs[i];
    AcceptedClass(env, re, xs[i], exact, v);
    ClassOfMember(Structural(node), i, DiffSoundness.ClassOf(v));
  }

  lemma ClassOfMember(union: Node, i: nat, c: DiffSoundness.Class)
    requires union.UnionNode? && i < |union.members| && c in DiffSoundness.Classes(union.members[i])
    ensures c in DiffSoundness.Classes(union)
  {
    assert union.members[i] in union.members;
  }

  /** Schemas whose trees exclude each other accept no common value, open or closed. */
  lemma ExclusiveSchemas(env: Env, re: Regex, x: Raw, y: Raw, v: Json)
    requires Standard(env, re) && Reducible(x) && Reducible(y) && Kept(x, false) && Kept(y, false)
    requires DiffSoundness.Exclusive(Structural(x), Structural(y))
    ensures !(Accepts(env, 0, x, v) && Accepts(env, 0, y, v))
  {
    if Accepts(env, 0, x, v) && Accepts(env, 0, y, v) {
      AcceptedClass(env, re, x, false, v);
      AcceptedClass(env, re, y, false, v);
      var ps, qs := Structural(x).properties, Structural(y).properties;
      var name :| name in ps && name in qs && ps[name].required && qs[name].required
                  && ps[name].schema.ConstNode? && qs[name].schema.ConstNode?
                  && !SameJson(ps[name].schema.value, qs[name].schema.value);
      TagHolds(env, re, x, name, v);
      TagHolds(env, re, y, name, v);
    }
  }

  /** A required const property has its value. */
  lemma TagHolds(env: Env, re: Regex, node: Raw, name: string, v: Json)
    requires Standard(env, re) && Reducible(node) && Kept(node, false) && Accepts(env, 0, node, v)
    requires Structural(node).ObjectNode? && name in Structural(node).properties
    requires var field := Structural(node).properties[name]; field.required && field.schema.ConstNode?
    ensures v.JObj? && name in v.fields
    ensures v.fields[name] == ToJson(Structural(node).properties[name].schema.value)
  {
    ObjectParts(env, re, node, v);
    TagFacts(node, name);
    hide Kept, Structural, Reducible, Accepts;
    var tag := DeclaredProperties(node.entries)[name];
    assert Accepts(env, 0, tag, v.fields[name]);
    ConstKept(env, re, tag, v.fields[name]);
  }

  /** The tag's own schema, and that it is required. */
  lemma TagFacts(node: Raw, name: string)
    requires Reducible(node) && Kept(node, false) && Structural(node).ObjectNode?
    requires name in Structural(node).properties
    requires var field := Structural(node).properties[name]; field.required && field.schema.ConstNode?
    ensures name in DeclaredProperties(node.entries) && name in RequiredNames(node.entries)
    ensures var tag := DeclaredProperties(node.entries)[name];
            && tag.RObj? && "const" in tag.entries
            && tag.entries["const"] == RAtom(Structural(node).properties[name].schema.value)
            && tag.entries.Keys - ANNOTATIONS <= {"const", "type"}
            && ("type" in tag.entries ==>
                  IsText(tag.entries["type"])
                      && TypeHolds(tag.entries["type"].value.s, ToJson(tag.entries["const"].value)))
  {
  }

  // ---------------------------------------------------------------- from loaded schema to accepted values

  /** canonical_schema: the schema with its own $defs inlined. */
  function Canonical(env: Env, schema: Raw): Raw {
    Resolve(schema, env.defs, {})
  }

  /** field_summary */
  function FieldSummary(canonical: Raw): Fields
    requires Reducible(canonical)
  {
    var tree := Structural(canonical);
    if tree.ObjectNode? then tree.properties else map[]
  }

  /** A schema with its definitions, as pydantic writes them. */
  ghost predicate Summarised(env: Env, re: Regex, bound: nat, schema: Raw, exact: bool) {
    && Standard(env, re) && InlinableDefs(env) && Inlinable(env, bound, schema)
    && Reducible(Canonical(env, schema)) && Kept(Canonical(env, schema), exact)
    && Structural(Canonical(env, schema)) == ObjectNode(FieldSummary(Canonical(env, schema)))
  }

  /** The value's objects carry what the schema declares, and nothing else. */
  ghost predicate OnlyDeclared(env: Env, schema: Raw, v: Json)
    requires Reducible(Canonical(env, schema))
  {
    DeclaredOnly(env, Canonical(env, schema), v)
  }

  /** A summary accepts what its schema accepts with declared properties only; a closed schema
      accepts nothing else. */
  lemma SummaryKeepsMeaning(env: Env, re: Regex, bound: nat, schema: Raw, exact: bool, v: Json)
    requires Summarised(env, re, bound, schema, exact)
    ensures Agree(exact, OnlyDeclared(env, schema, v), Accepts(env, bound, schema, v),
                  Valid(re, ObjectNode(FieldSummary(Canonical(env, schema))), v))
  {
    ResolveKeepsMeaning(env, bound, schema, {}, v);
    TreeKeepsMeaning(env, re, Canonical(env, schema), exact, v);
  }

  /** Nothing MAJOR between two summaries, where the label can be trusted. */
  ghost predicate PassesDiff(re: Regex, before: Fields, after: Fields) {
    && !SchemaDiff.HasMajor(SchemaDiff.FieldsChanges(re, before, after))
    && DiffSoundness.Reliable(ObjectNode(before), ObjectNode(after))
  }

  /** The gate's claim about the schemas themselves, $refs and all: when diff_fields reports
      nothing MAJOR between two summaries, each value the old schema accepts and that carries
      declared properties only is accepted by the new one, and carries only what that one
      declares. Either schema may leave its objects open. */
  lemma GateIsSound(was: Env, now: Env, re: Regex, oldBound: nat, newBound: nat, oldSchema: Raw, newSchema: Raw,
                    oldExact: bool, newExact: bool, v: Json)
    requires Summarised(was, re, oldBound, oldSchema, oldExact)
    requires Summarised(now, re, newBound, newSchema, newExact)
    requires PassesDiff(re, FieldSummary(Canonical(was, oldSchema)), FieldSummary(Canonical(now, newSchema)))
    requires Published(re, v, "")
    requires Accepts(was, oldBound, oldSchema, v) && OnlyDeclared(was, oldSchema, v)
    ensures Accepts(now, newBound, newSchema, v) && OnlyDeclared(now, newSchema, v)
  {
    SummaryKeepsMeaning(was, re, oldBound, oldSchema, oldExact, v);
    SummaryKeepsMeaning(now, re, newBound, newSchema, newExact, v);
    DiffSoundness.DiffSound(re, ObjectNode(FieldSummary(Canonical(was, oldSchema))),
                            ObjectNode(FieldSummary(Canonical(now, newSchema))), "", v);
  }

  /** Closed, the old schema accepts declared properties only: no value is lost at all. */
  lemma ClosedGateIsSound(was: Env, now: Env, re: Regex, oldBound: nat, newBound: nat, oldSchema: Raw,
                          newSchema: Raw, newExact: bool, v: Json)
    requires Summarised(was, re, oldBound, oldSchema, true)
    requires Summarised(now, re, newBound, newSchema, newExact)
    requires PassesDiff(re, FieldSummary(Canonical(was, oldSchema)), FieldSummary(Canonical(now, newSchema)))
    requires Published(re, v, "")
    requires Accepts(was, oldBound, oldSchema, v)
    ensures Accepts(now, newBound, newSchema, v)
  {
    SummaryKeepsMeaning(was, re, oldBound, oldSchema, true, v);
    GateIsSound(was, now, re, oldBound, newBound, oldSchema, newSchema, true, newExact, v);
  }
}
