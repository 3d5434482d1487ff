/**
 * Decoded JSON values, as `json.loads` hands them to the beacon collector,
 * and the Python `isinstance` tests the collector applies to them.
 *
 * JSON integers decode to `int`, JSON numbers with a fraction or an exponent
 * decode to `float` (modelled as an exact `real`), objects decode to `dict`
 * (a later duplicate key replaces an earlier one, hence a `map`).
 */
module Json {
  import opened Wrappers

  datatype Value =
    | Null
    | Bool(b: bool)
    | Int(i: int)
    | Float(f: real)
    | Str(s: string)
    | Array(items: seq<Value>)
    | Object(fields: map<string, Value>)

  /** The Python classes a decoded value can have. */
  datatype PyType = NoneType | PyBool | PyInt | PyFloat | PyStr | PyList | PyDict

  /** `type(v)` */
  function TypeOf(v: Value): PyType {
    match v
    case Null => NoneType
    case Bool(_) => PyBool
    case Int(_) => PyInt
    case Float(_) => PyFloat
    case Str(_) => PyStr
    case Array(_) => PyList
    case Object(_) => PyDict
  }

  /** `isinstance(v, types)`: `bool` is a subclass of `int`, so a boolean passes as an integer. */
  predicate IsInstance(v: Value, types: set<PyType>) {
    TypeOf(v) in types || (TypeOf(v) == PyBool && PyInt in types)
  }

  /** `isinstance(v, (int, float))`, booleans included. */
  predicate IsNumber(v: Value) {
    v.Bool? || v.Int? || v.Float?
  }

  /** `float(v)` for a number: `True` is 1.0 and `False` is 0.0. */
  function AsReal(v: Value): (r: Option<real>)
    ensures r.Some? <==> IsNumber(v)
    ensures v.Int? ==> r == Some(v.i as real)
    ensures v.Float? ==> r == Some(v.f)
    ensures v.Bool? ==> r == Some(if v.b then 1.0 else 0.0)
  {
    match v
    case Bool(b) => Some(if b then 1.0 else 0.0)
    case Int(i) => Some(i as real)
    case Float(f) => Some(f)
    case _ => None
  }

  /** `int(v)` for a value that passed `isinstance(v, int)`: `True` is 1 and `False` is 0. */
  function AsInt(v: Value): (r: Option<int>)
    ensures r.Some? <==> IsInstance(v, {PyInt})
    ensures v.Int? ==> r == Some(v.i)
    ensures v.Bool? ==> r == Some(if v.b then 1 else 0)
  {
    match v
    case Bool(b) => Some(if b then 1 else 0)
    case Int(i) => Some(i)
    case _ => None
  }
}
