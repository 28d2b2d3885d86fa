/**
 * The attribute values the program reads from JSON replies and stores in the
 * video table. Objects keep their members in insertion order, as Python's
 * `dict` does.
 */
module Values {
  datatype Value =
    | Str(s: string)
    | Num(n: int)
    | Bool(b: bool)
    | Null
    | List(items: seq<Value>)
    | Obj(fields: seq<(string, Value)>)

  /** Python truthiness: empty strings, zero, `False`, `None` and empty
      containers are falsy. */
  predicate Truthy(v: Value)
  {
    match v
    case Str(s) => s != ""
    case Num(n) => n != 0
    case Bool(b) => b
    case Null => false
    case List(items) => items != []
    case Obj(fields) => fields != []
  }
}
