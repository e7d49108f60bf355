/** Parsed JSON as JavaScript sees it: the values `JSON.parse` can return,
    their truthiness, property access and the `a || b` default idiom.
    `JSON.parse` itself is not modelled; callers receive it as a partial
    function (None where it throws SyntaxError). */
module Json {
  import opened Wrappers

  datatype Json =
    | JNull
    | JBool(b: bool)
    | JNumber(n: real)
    | JString(s: string)
    | JArray(items: seq<Json>)
    | JObject(fields: map<string, Json>)

  /** JavaScript truthiness of a value, `undefined` (None) included: null,
      false, 0 and "" are falsy; arrays and objects, even empty, are truthy. */
  predicate Truthy(v: Option<Json>)
  {
    match v
    case None => false
    case Some(JNull) => false
    case Some(JBool(b)) => b
    case Some(JNumber(n)) => n != 0.0
    case Some(JString(s)) => s != ""
    case Some(JArray(_)) => true
    case Some(JObject(_)) => true
  }

  /** `v[key]`: the member of an object, `undefined` when it has none or
      when `v` is not an object. */
  function Get(v: Json, key: string): (r: Option<Json>)
    ensures r.Some? <==> v.JObject? && key in v.fields
    ensures r.Some? ==> r.value == v.fields[key]
  {
    match v
    case JObject(fields) => if key in fields then Some(fields[key]) else None
    case _ => None
  }

  /** `a || fallback`: `a` when truthy, otherwise `fallback`. */
  function Or(a: Option<Json>, fallback: Json): (r: Json)
    ensures Truthy(a) ==> Some(r) == a
    ensures !Truthy(a) ==> r == fallback
  {
    if Truthy(a) then a.value else fallback
  }
}
