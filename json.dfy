/** The values `json.loads` produces, as far as the registry queries look at them. */
module JsonValue {
  import opened PyDict

  /** A decoded JSON document. `Null` is Python's `None`. Numbers keep only an
      integer value: the queries never do more with a number than test its truth. */
  datatype Json =
    | Null
    | Bool(b: bool)
    | Num(n: int)
    | Str(s: string)
    | Arr(items: seq<Json>)
    | Obj(fields: seq<(string, Json)>)

  /** Python truthiness: `None`, `False`, `0`, `""`, `[]` and `{}` are false. */
  predicate Truthy(v: Json)
  {
    match v
    case Null => false
    case Bool(b) => b
    case Num(n) => n != 0
    case Str(s) => s != []
    case Arr(items) => items != []
    case Obj(fields) => fields != []
  }

  /** What `json.loads` can return: every object has distinct keys (a repeated
      key in the text keeps one entry). */
  predicate Parsed(v: Json)
    decreases v
  {
    match v
    case Arr(items) => forall i :: 0 <= i < |items| ==> Parsed(items[i])
    case Obj(fields) =>
      NoDuplicates(Keys(fields)) && forall i :: 0 <= i < |fields| ==> Parsed(fields[i].1)
    case _ => true
  }
}
