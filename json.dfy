/**
 * JSON values as the server receives them after `express.json()` has parsed a
 * request body, and the JavaScript notions (truthiness, `typeof ... === 'object'`,
 * property access) that the validators apply to them.
 */
module Json {
  import opened Wrappers

  /** A parsed JSON value. JSON numbers are kept as integers: only whether a
      number is zero matters to the code modelled here. */
  datatype Json =
    | Null
    | Bool(b: bool)
    | Num(n: int)
    | Str(s: string)
    | Arr(items: seq<Json>)
    | Obj(fields: map<string, Json>)

  /** JavaScript truthiness of a possibly absent value (`undefined` is `None`). */
  predicate Truthy(v: Option<Json>)
  {
    match v
    case None => false
    case Some(Null) => false
    case Some(Bool(b)) => b
    case Some(Num(n)) => n != 0
    case Some(Str(s)) => s != ""
    case Some(Arr(_)) => true
    case Some(Obj(_)) => true
  }

  /** `!v || typeof v !== 'object'` is false exactly for arrays and objects. */
  predicate IsObject(v: Json)
  {
    v.Arr? || v.Obj?
  }

  /** Property read `v.key`: only objects parsed from JSON carry named properties. */
  function Get(v: Json, key: string): (r: Option<Json>)
    ensures r.Some? <==> v.Obj? && key in v.fields
    ensures r.Some? ==> r.value == v.fields[key]
  {
    if v.Obj? && key in v.fields then Some(v.fields[key]) else None
  }
}
