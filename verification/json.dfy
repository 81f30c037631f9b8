/** The JSON values the export parser walks after `JSON.parse`, with the
    JavaScript notions it relies on: truthiness, property access (absent
    properties are `None`, standing for `undefined`) and `Object.keys`. */
module Json {
  import opened Wrappers
  import opened Text

  /** Numbers are integers; objects are association lists in key order. */
  datatype Json =
    | JNull
    | JBool(b: bool)
    | JNum(n: int)
    | JStr(s: string)
    | JArr(items: seq<Json>)
    | JObj(fields: seq<(string, Json)>)

  /** JavaScript truthiness: `null`, `false`, `0` and "" are falsy. */
  predicate Truthy(j: Json) {
    match j
    case JNull => false
    case JBool(b) => b
    case JNum(n) => n != 0
    case JStr(s) => s != ""
    case JArr(_) => true
    case JObj(_) => true
  }

  /** Truthiness of a possibly absent value (`undefined` is falsy). */
  predicate Present(v: Option<Json>) {
    v.Some? && Truthy(v.value)
  }

  function Lookup(fields: seq<(string, Json)>, k: string): Option<Json> {
    if fields == [] then None
    else if fields[0].0 == k then Some(fields[0].1)
    else Lookup(fields[1..], k)
  }

  /** `v?.k`: property `k` of an object; anything else has no own
      properties that the parser reads. */
  function Get(v: Option<Json>, k: string): Option<Json> {
    match v
    case Some(JObj(fields)) => Lookup(fields, k)
    case _ => None
  }

  /** `Object.keys(v).map(k => [k, v[k]])` for the values a mapping can be:
      an object's own entries, an array's indexed elements, a string's
      indexed characters; nothing for other values. */
  function Entries(v: Json): seq<(string, Json)> {
    match v
    case JObj(fields) => fields
    case JArr(items) => seq(|items|, i requires 0 <= i < |items| => (NatToString(i), items[i]))
    case JStr(s) => seq(|s|, i requires 0 <= i < |s| => (NatToString(i), JStr([s[i]])))
    case _ => []
  }

  /** `v || d` where `v` should be a string: a non-empty string value, or
      the fallback. */
  function StringOr(v: Option<Json>, d: string): string {
    match v
    case Some(JStr(s)) => if s != "" then s else d
    case _ => d
  }

  /** `v || null` where `v` should be a string. */
  function OptString(v: Option<Json>): Option<string> {
    match v
    case Some(JStr(s)) => if s != "" then Some(s) else None
    case _ => None
  }

  /** `v || null` where `v` should be a number. */
  function OptNumber(v: Option<Json>): Option<int> {
    match v
    case Some(JNum(n)) => if n != 0 then Some(n) else None
    case _ => None
  }
}
