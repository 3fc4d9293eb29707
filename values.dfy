/**
 * The already-parsed shape of a YAML or JSON document: the scalars the
 * pipeline inspects, lists and string-keyed mappings.
 */
module Values {
  import opened Text

  datatype Value =
    | Null
    | Bool(b: bool)
    | Int(i: int)
    | Str(s: string)
    | List(items: seq<Value>)
    | Dict(fields: map<string, Value>)

  /** Python truthiness: `None`, `False`, `0`, `""`, `[]` and `{}` are false. */
  predicate Truthy(v: Value) {
    match v
    case Null => false
    case Bool(b) => b
    case Int(i) => i != 0
    case Str(s) => s != []
    case List(items) => items != []
    case Dict(fields) => fields != map[]
  }

  /** `str(v)` for the scalars, as an f-string renders them. */
  function Display(v: Value): (r: string)
    ensures v.Str? ==> r == v.s
  {
    match v
    case Null => "None"
    case Bool(b) => if b then "True" else "False"
    case Int(i) => IntToString(i)
    case Str(s) => s
    case List(_) => "[...]"
    case Dict(_) => "{...}"
  }
}
