/** Python values as the pipeline sees them: JSON records loaded from disk,
    the YAML configuration, and the dictionaries the chunker builds.
    Also the Option and Result wrappers used for "may raise". */
module PyValues {

  datatype Option<+T> = None | Some(value: T)

  datatype Result<+T, +E> = Success(value: T) | Failure(error: E)

  /** A JSON/YAML value. Floating-point numbers are kept opaque. */
  datatype Value =
    | Null
    | Bool(b: bool)
    | Int(i: int)
    | Float(repr: string)
    | Str(s: string)
    | List(elems: seq<Value>)
    | Obj(fields: map<string, Value>)

  /** `d.get(key, default)` on a dictionary. */
  function GetOr(d: map<string, Value>, key: string, default: Value): Value
  {
    if key in d then d[key] else default
  }

  /** `v[key]` with a string key: a KeyError or TypeError (None) unless `v`
      is a dictionary holding `key`. */
  function Index(v: Value, key: string): Option<Value>
  {
    if v.Obj? && key in v.fields then Some(v.fields[key]) else None
  }
}
