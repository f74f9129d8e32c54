/**
 The structural tree of scripts/contract_schema_snapshot.py and what a node accepts.

 An object node with properties accepts exactly the objects that carry declared
 properties only (extra="forbid", or a writer that emits declared fields only): the
 structural tree drops additionalProperties beside properties, so no other reading of
 such a node is one the tree can tell apart. A bare object node is free-form.
 */
module StructuralNodes {
  import opened Common
  import opened JsonValues

  datatype NumberKey =
    | Minimum | ExclusiveMinimum | Maximum | ExclusiveMaximum
    | MinLength | MaxLength | MinItems | MaxItems | MultipleOf

  /** The constraint keywords a node carries. */
  datatype Limits = Limits(numbers: map<NumberKey, real>, pattern: Option<string>)

  const NO_LIMITS := Limits(map[], None)

  datatype ScalarType = AnyT | StringT | IntegerT | NumberT | BooleanT | NullT

  datatype UnionOp = AnyOf | OneOf

  datatype Field = Field(required: bool, schema: Node)

  datatype Node =
    | ConstNode(value: Scalar)
    | EnumNode(values: seq<Scalar>)
    | UnionNode(op: UnionOp, members: seq<Node>)
    | ArrayNode(items: Node, limits: Limits)
    | ObjectNode(properties: map<string, Field>)
    | MapNode(additional: Node)
    | ScalarNode(typ: ScalarType, limits: Limits)

  type Fields = map<string, Field>

  /** A regular-expression engine: does the text match the pattern? */
  type Regex = (string, string) -> bool

  /** r"^\d+\.\d+$" */
  const VERSION_PATTERN := "^\\d+\\.\\d+$"

  function Times(k: int, r: real): real {
    k as real * r
  }

  ghost predicate IsMultiple(x: real, of: real) {
    exists k: int :: x == Times(k, of)
  }

  ghost predicate IsInteger(x: real) {
    x == x.Floor as real
  }

  /** One numeric keyword (Validation section 6 of JSON Schema 2020-12): it binds only
      instances of its own type. */
  ghost predicate NumberHolds(key: NumberKey, bound: real, v: Json) {
    match key
    case Minimum => v.JNum? ==> v.n >= bound
    case ExclusiveMinimum => v.JNum? ==> v.n > bound
    case Maximum => v.JNum? ==> v.n <= bound
    case ExclusiveMaximum => v.JNum? ==> v.n < bound
    case MinLength => v.JStr? ==> |v.s| as real >= bound
    case MaxLength => v.JStr? ==> |v.s| as real <= bound
    case MinItems => v.JArr? ==> |v.items| as real >= bound
    case MaxItems => v.JArr? ==> |v.items| as real <= bound
    case MultipleOf => v.JNum? ==> IsMultiple(v.n, bound)
  }

  ghost predicate LimitsHold(re: Regex, limits: Limits, v: Json) {
    && (forall key | key in limits.numbers :: NumberHolds(key, limits.numbers[key], v))
    && (limits.pattern.Some? && v.JStr? ==> re(limits.pattern.value, v.s))
  }

  ghost predicate HasType(typ: ScalarType, v: Json) {
    match typ
    case AnyT => true
    case StringT => v.JStr?
    case IntegerT => v.JNum? && IsInteger(v.n)
    case NumberT => v.JNum?
    case BooleanT => v.JBool?
    case NullT => v.JNull?
  }

  /** Whether the JSON value is an instance of the schema the node stands for. */
  ghost predicate Valid(re: Regex, node: Node, v: Json) {
    match node
    case ConstNode(c) => v == ToJson(c)
    case EnumNode(cs) => exists c | c in cs :: v == ToJson(c)
    case UnionNode(AnyOf, ms) => exists i | 0 <= i < |ms| :: Valid(re, ms[i], v)
    case UnionNode(OneOf, ms) =>
      exists i | 0 <= i < |ms| ::
        Valid(re, ms[i], v) && forall j | 0 <= j < |ms| && j != i :: !Valid(re, ms[j], v)
    case ArrayNode(items, limits) =>
      v.JArr? && LimitsHold(re, limits, v) && forall x | x in v.items :: Valid(re, items, x)
    case ObjectNode(props) =>
      && v.JObj?
      && (props == map[] || v.fields.Keys <= props.Keys)
      && (forall name | name in props && props[name].required :: name in v.fields)
      && (forall name | name in props && name in v.fields ::
            Valid(re, props[name].schema, v.fields[name]))
    case MapNode(additional) =>
      v.JObj? && forall name | name in v.fields :: Valid(re, additional, v.fields[name])
    case ScalarNode(typ, limits) => HasType(typ, v) && LimitsHold(re, limits, v)
  }

  /** Everything the old node accepts, the new one accepts. */
  ghost predicate Subsumes(re: Regex, before: Node, after: Node) {
    forall v | Valid(re, before, v) :: Valid(re, after, v)
  }

  /** f"{path}.{name}" if path else name */
  function Child(path: string, name: string): string {
    if path == "" then name else path + "." + name
  }

  /** Every string found at the path contract_version is a published version, one the
      version pattern matches. Item and map-value paths end in [] and [*]. */
  ghost predicate Published(re: Regex, v: Json, path: string) {
    && (path == "contract_version" && v.JStr? ==> re(VERSION_PATTERN, v.s))
    && (match v
        case JArr(xs) => forall x | x in xs :: Published(re, x, path + "[]")
        case JObj(fs) => forall name | name in fs ::
                           && Published(re, fs[name], Child(path, name))
                           && Published(re, fs[name], path + "[*]")
        case _ => true)
  }
}
