/** The JavaScript values the browser client inspects in server payloads,
    with the language's truthiness, the `||` operator, property access and
    conversion to a string. Numbers are integral here; fractional numbers and
    NaN are not modelled. */
module JsValues {

  import opened Text

  datatype Json =
    | JUndefined
    | JNull
    | JBool(b: bool)
    | JNumber(n: int)
    | JString(s: string)
    | JArray(items: seq<Json>)
    | JObject(fields: map<string, Json>)

  /** Truthiness: `undefined`, `null`, `false`, `0` and `""` are falsy. */
  predicate Truthy(v: Json) {
    match v
    case JUndefined => false
    case JNull => false
    case JBool(b) => b
    case JNumber(n) => n != 0
    case JString(s) => s != ""
    case JArray(_) => true
    case JObject(_) => true
  }

  /** `a || b`: the left operand when it is truthy, the right one otherwise. */
  function Or(a: Json, b: Json): (r: Json)
    ensures Truthy(r) <==> Truthy(a) || Truthy(b)
    ensures r == a || r == b
  {
    if Truthy(a) then a else b
  }

  /** `v && typeof v === 'object'`: arrays and plain objects. */
  predicate IsObject(v: Json) {
    v.JArray? || v.JObject?
  }

  /** `v.key`; `undefined` for a missing property and for the values whose
      properties the client never reads. */
  function Get(v: Json, key: string): (r: Json)
    ensures !v.JObject? ==> r == JUndefined
  {
    if v.JObject? && key in v.fields then v.fields[key] else JUndefined
  }

  /** `v.a || v.b || ...`: the first truthy property, or the last one read. */
  function FirstTruthy(v: Json, keys: seq<string>): (r: Json)
    requires |keys| >= 1
    ensures Truthy(r) <==> exists i :: 0 <= i < |keys| && Truthy(Get(v, keys[i]))
    ensures Truthy(r) ==> exists i :: 0 <= i < |keys| && r == Get(v, keys[i])
                                      && forall j :: 0 <= j < i ==> !Truthy(Get(v, keys[j]))
  {
    if |keys| == 1 then Get(v, keys[0])
    else
      var rest := FirstTruthy(v, keys[1..]);
      assert forall i :: 1 <= i < |keys| ==> keys[i] == keys[1..][i - 1];
      Or(Get(v, keys[0]), rest)
  }

  /** `String(v)` as template literals apply it. An array joins its elements
      with commas, `null` and `undefined` elements giving empty strings. */
  function ToJsString(v: Json): (r: string)
    ensures v.JString? ==> r == v.s
    decreases v, 1
  {
    match v
    case JUndefined => "undefined"
    case JNull => "null"
    case JBool(b) => if b then "true" else "false"
    case JNumber(n) => IntToString(n)
    case JString(s) => s
    case JArray(items) => JoinElements(items)
    case JObject(_) => "[object Object]"
  }

  function JoinElements(items: seq<Json>): string
    decreases items, 0
  {
    if items == [] then ""
    else
      var first := if items[0].JUndefined? || items[0].JNull? then "" else ToJsString(items[0]);
      if |items| == 1 then first else first + "," + JoinElements(items[1..])
  }
}
