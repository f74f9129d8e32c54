/** JSON values, and the scalar literals a schema's const and enum keywords hold. */
module JsonValues {

  datatype Json =
    | JNull
    | JBool(b: bool)
    | JNum(n: real)
    | JStr(s: string)
    | JArr(items: seq<Json>)
    | JObj(fields: map<string, Json>)

  /** A const or enum literal as Python's json module loads it: int and float are told apart. */
  datatype Scalar =
    | SNull
    | SBool(b: bool)
    | SInt(i: int)
    | SFloat(r: real)
    | SStr(s: string)

  /** The JSON value a literal denotes. JSON has one number type, so 1 and 1.0 are the same value. */
  function ToJson(c: Scalar): Json {
    match c
    case SNull => JNull
    case SBool(b) => JBool(b)
    case SInt(i) => JNum(i as real)
    case SFloat(r) => JNum(r)
    case SStr(s) => JStr(s)
  }

  /** Python's ==, which the diff uses: bool is a subclass of int, so True == 1 == 1.0. */
  function PyRank(c: Scalar): Json {
    match c
    case SBool(b) => JNum(if b then 1.0 else 0.0)
    case _ => ToJson(c)
  }

  predicate PyEq(a: Scalar, b: Scalar) {
    PyRank(a) == PyRank(b)
  }

  predicate SameJson(a: Scalar, b: Scalar) {
    ToJson(a) == ToJson(b)
  }

  /** Equal to Python but not to JSON: a boolean against 0 or 1. */
  predicate Twins(a: Scalar, b: Scalar) {
    PyEq(a, b) && !SameJson(a, b)
  }
}
