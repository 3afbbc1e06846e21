/** Parsed JSON, as a request body or an event draft holds it. */
module JsonValues {

  datatype Json = Null | Bool(value: bool) | Number(n: int) | Text(s: string) | List(items: seq<Json>) | Object(fields: map<string, Json>)

  /** Python's truth value. */
  predicate Truthy(j: Json) {
    match j
    case Null => false
    case Bool(b) => b
    case Number(n) => n != 0
    case Text(s) => s != ""
    case List(items) => items != []
    case Object(fields) => fields != map[]
  }
}
