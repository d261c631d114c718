/** Parsed JSON values, as `JSON.parse` hands them to the code, with the
    `typeof` tests and the truthiness the code applies to them. Numbers
    are integers here. */
module Json {

  datatype Json =
    | JNull
    | JBool(b: bool)
    | JNumber(n: int)
    | JString(s: string)
    | JArray(elems: seq<Json>)
    | JObject(fields: map<string, Json>)

  /** JavaScript truthiness: `false`, `0`, `""` and `null` are falsy; every
      array and object is truthy. */
  predicate Truthy(j: Json) {
    match j
    case JNull => false
    case JBool(b) => b
    case JNumber(n) => n != 0
    case JString(s) => s != []
    case JArray(_) => true
    case JObject(_) => true
  }

  /** `typeof o[k] === "string"` for an object `o`. */
  predicate HasString(fields: map<string, Json>, k: string) {
    k in fields && fields[k].JString?
  }

  /** `typeof o[k] === "number"` for an object `o`. */
  predicate HasNumber(fields: map<string, Json>, k: string) {
    k in fields && fields[k].JNumber?
  }
}
