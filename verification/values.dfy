/** The loosely-typed values the documents carry: what the YAML safe loader produces. */
module Values {

  /** A Python value built from scalars, lists and string-keyed dicts; `Null` is `None`. */
  datatype Value =
    | Null
    | Bool(b: bool)
    | Int(i: int)
    | Str(s: string)
    | List(items: seq<Value>)
    | Mapping(entries: map<string, Value>)

  /** Python truthiness: what `if v:` tests. */
  predicate Truthy(v: Value)
  {
    match v
    case Null => false
    case Bool(b) => b
    case Int(i) => i != 0
    case Str(s) => s != ""
    case List(items) => items != []
    case Mapping(entries) => entries != map[]
  }
}
