/**
 * A decoded JSON document as the pull scripts see it after `resp.json()`,
 * together with the few Python operations they apply to it: truthiness,
 * `dict.get`, `dict[key]` and `float(...)`.
 */
module Json {
  import opened Wrappers

  datatype Value =
    | Null
    | Bool(b: bool)
    | Number(n: real)
    | Str(s: string)
    | Array(items: seq<Value>)
    | Object(fields: map<string, Value>)

  /** Why a Python operation on a decoded value raises. */
  datatype Error =
    | NotAnObject          // AttributeError: `.get`/`.items`/`.keys` on something that is not a dict
    | NotSubscriptable     // TypeError: `x['key']` or `x[0]` on a value that does not support it
    | MissingKey(key: string)  // KeyError
    | NotANumber           // TypeError/ValueError raised by `float(...)`
    | NotComparable        // TypeError: `<` between a str and another type
    | NotIterable          // TypeError: `for item in x` on a scalar

  /** Python truthiness (`if not data`, `if not d`) of a decoded value. */
  predicate Truthy(v: Value)
    ensures !Truthy(v) <==> v in {Null, Bool(false), Number(0.0), Str([]), Array([]), Object(map[])}
  {
    match v
    case Null => false
    case Bool(b) => b
    case Number(n) => n != 0.0
    case Str(s) => s != []
    case Array(items) => items != []
    case Object(fields) => fields != map[]
  }

  /** `v.get(key, default)`: only dicts have `.get`. */
  function Get(v: Value, key: string, default: Value): (r: Result<Value, Error>)
    ensures r.Ok? <==> v.Object?
    ensures r.Ok? && key !in v.fields ==> r.value == default
  {
    match v
    case Object(fields) => Ok(if key in fields then fields[key] else default)
    case _ => Err(NotAnObject)
  }

  /** `v[key]` for a string key. */
  function Index(v: Value, key: string): (r: Result<Value, Error>)
    ensures r.Ok? <==> v.Object? && key in v.fields
    ensures r.Ok? ==> r.value == v.fields[key]
    ensures v.Object? && key !in v.fields ==> r == Err(MissingKey(key))
    ensures !v.Object? ==> r == Err(NotSubscriptable)
  {
    match v
    case Object(fields) => if key in fields then Ok(fields[key]) else Err(MissingKey(key))
    case _ => Err(NotSubscriptable)
  }

  /**
   * Python's `float(v)`. How a string is read as a number is left to
   * `parse`; `None`, lists and dicts make `float` raise.
   */
  function ToFloat(v: Value, parse: string -> Option<real>): (r: Option<real>)
    ensures v.Null? || v.Array? || v.Object? ==> r == None
  {
    match v
    case Number(n) => Some(n)
    case Bool(b) => Some(if b then 1.0 else 0.0)
    case Str(s) => parse(s)
    case _ => None
  }
}
