/** Python runtime values as the render-farm code sees them: the result of
    `json.loads`, dictionaries keyed by strings, `dict.get`, `dict.update`
    and Python's truth test. */
module Py {

  datatype Option<T> = None | Some(value: T)

  /** A JSON value. Python compares an int with a float by numeric value, so
      both are one numeric constructor here. */
  datatype Value =
    | Null
    | Bool(b: bool)
    | Num(n: real)
    | Str(s: string)
    | List(items: seq<Value>)
    | Object(fields: map<string, Value>)

  /** A JSON object: status reports, jobs and form data are all of this shape. */
  type Dict = map<string, Value>

  /** `d.get(key, default)` */
  function Get(d: Dict, key: string, default: Value): Value
  {
    if key in d then d[key] else default
  }

  /** Python's truth value of a JSON value (`if v:`). */
  predicate Truthy(v: Value)
  {
    match v
    case Null => false
    case Bool(b) => b
    case Num(n) => n != 0.0
    case Str(s) => |s| > 0
    case List(items) => |items| > 0
    case Object(fields) => |fields| > 0
  }

  /** A value that can key a Python `dict`: lists and objects decode to
      `list` and `dict`, which are unhashable. */
  predicate Hashable(v: Value)
  {
    !v.List? && !v.Object?
  }

  /** `d.update(u)` as a value: the keys of `u` overwrite, every other key of
      `d` persists with its old value. */
  function Merge(d: Dict, u: Dict): (r: Dict)
    ensures r.Keys == d.Keys + u.Keys
    ensures forall k :: k in u ==> r[k] == u[k]
    ensures forall k :: k in d && k !in u ==> r[k] == d[k]
  {
    d + u
  }
}
