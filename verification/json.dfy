/** The values a JSON configuration file can hold, and Python's truthiness of
    them (`if not region:`). Numbers are integers here; floating-point numbers
    are not modelled. */
module Json {

  datatype Value =
    | Null
    | Bool(b: bool)
    | Num(n: int)
    | Str(s: string)
    | Arr(items: seq<Value>)
    | Obj(fields: map<string, Value>)

  /** Python `bool(v)`: `None`, `False`, `0`, `""`, `[]` and `{}` are false,
      everything else is true. */
  predicate Truthy(v: Value)
  {
    match v
    case Null => false
    case Bool(b) => b
    case Num(n) => n != 0
    case Str(s) => s != ""
    case Arr(items) => items != []
    case Obj(fields) => fields != map[]
  }
}
