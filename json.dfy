/** JSON values as `json.load` produces them and `json.dump` writes them. */
module Json {

  datatype Json =
    | Null
    | Bool(b: bool)
    | Number(n: int)
    | Str(s: string)
    | Array(items: seq<Json>)
    | Object(fields: map<string, Json>)

  /** A configuration document: the top-level JSON object held by a store. */
  type Document = map<string, Json>

  /** Python's truth value of the corresponding Python object (`if value:`). */
  predicate Truthy(v: Json) {
    match v
    case Null => false
    case Bool(b) => b
    case Number(n) => n != 0
    case Str(s) => s != ""
    case Array(items) => items != []
    case Object(fields) => fields != map[]
  }
}
