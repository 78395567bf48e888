/** Parsed JSON values as the request handlers and the JSON-LD reader see
    them, with the JavaScript operations applied to them: truthiness,
    optional property access, `??` and conversion to a string. */
module JsonValue {
  import opened Strings

  /** A value produced by `JSON.parse`. Numbers are integers in this model. */
  datatype Json =
    | JNull
    | JBool(b: bool)
    | JNum(n: int)
    | JStr(s: string)
    | JArr(items: seq<Json>)
    | JObj(fields: map<string, Json>)

  /** JavaScript truthiness of a possibly `undefined` (None) value. */
  predicate Truthy(v: Option<Json>) {
    match v
    case None => false
    case Some(JNull) => false
    case Some(JBool(b)) => b
    case Some(JNum(n)) => n != 0
    case Some(JStr(s)) => s != ""
    case Some(_) => true
  }

  /** `v?.[key]`: only a JSON object has an own property with one of the
      names the code reads; anything else yields `undefined`. */
  function Get(v: Option<Json>, key: string): (r: Option<Json>)
    ensures r.Some? ==> v.Some? && v.value.JObj? && key in v.value.fields
  {
    match v
    case Some(JObj(m)) => if key in m then Some(m[key]) else None
    case _ => None
  }

  /** `v ?? w` */
  function Coalesce(v: Option<Json>, w: Option<Json>): (r: Option<Json>)
    ensures r == v || r == w
  {
    if v == None || v == Some(JNull) then w else v
  }

  /** `String(v)` for a defined value. */
  function ToText(v: Json): string
    decreases v, 1, 0
  {
    match v
    case JNull => "null"
    case JBool(b) => if b then "true" else "false"
    case JNum(n) => IntToString(n)
    case JStr(s) => s
    case JArr(items) => JoinFrom(v, 0)
    case JObj(_) => "[object Object]"
  }

  /** `items.slice(i).join(",")`, where `null` elements print as empty. */
  function JoinFrom(v: Json, i: nat): string
    requires v.JArr? && i <= |v.items|
    decreases v, 0, |v.items| - i
  {
    if i == |v.items| then ""
    else
      var head := if v.items[i] == JNull then "" else ToText(v.items[i]);
      if i + 1 == |v.items| then head else head + "," + JoinFrom(v, i + 1)
  }
}
