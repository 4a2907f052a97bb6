/** The JavaScript values the backend handles: what `JSON.parse` can return,
    what a request body holds, and the property accesses the handlers make. */
module JsValues {

  datatype Option<+T> = None | Some(value: T)

  /** A value produced by `JSON.parse`. Numbers are kept as reals (binary
      floating point is not modelled); an object maps its own keys to values. */
  datatype Json =
    | JNull
    | JBool(b: bool)
    | JNumber(n: real)
    | JString(str: string)
    | JArray(items: seq<Json>)
    | JObject(members: map<string, Json>)

  /** JavaScript truthiness: `false`, `0`, `""` and `null` are falsy. */
  predicate Truthy(v: Json) {
    match v
    case JNull => false
    case JBool(b) => b
    case JNumber(n) => n != 0.0
    case JString(s) => s != ""
    case JArray(_) => true
    case JObject(_) => true
  }

  /** `v[key]`, with `None` standing for `undefined`. Only objects have keys
      here: reading a property of a string, number, boolean or array that
      the backend reads (`original`, `kanji`, `vocabList`, …) yields `undefined`. */
  function Get(v: Json, key: string): Option<Json> {
    if v.JObject? && key in v.members then Some(v.members[key]) else None
  }

  /** `v && typeof v[key] === 'string' ? v[key] : <absent>`. */
  function StringField(v: Json, key: string): (r: Option<string>)
    ensures r.Some? <==> Get(v, key).Some? && Get(v, key).value.JString?
    ensures r.Some? ==> Get(v, key) == Some(JString(r.value))
  {
    match Get(v, key)
    case Some(JString(s)) => Some(s)
    case _ => None
  }

  /** `Array.isArray(v[key]) ? v[key] : <absent>`. */
  function ArrayField(v: Json, key: string): (r: Option<seq<Json>>)
    ensures r.Some? <==> Get(v, key).Some? && Get(v, key).value.JArray?
    ensures r.Some? ==> Get(v, key) == Some(JArray(r.value))
  {
    match Get(v, key)
    case Some(JArray(items)) => Some(items)
    case _ => None
  }
}
