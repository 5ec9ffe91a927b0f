/** The JavaScript values a line of the dataset parses to, with the three
    language rules the product index depends on: truthiness, property access
    through optional chaining, and `String(v)`. */
module Js {
  import opened Wrappers

  /** A value `JSON.parse` can produce. Numbers are kept as reals; they only reach the
      index through `String(v)`, whose rendering of numbers is a parameter. */
  datatype Json =
    | JNull
    | JBool(b: bool)
    | JNum(n: real)
    | JStr(s: string)
    | JArr(items: seq<Json>)
    | JObj(fields: map<string, Json>)

  /** JavaScript truthiness, `None` being `undefined`. `JSON.parse` never yields `NaN`,
      so the falsy values are `undefined`, `null`, `false`, `0` and `""`. */
  predicate Truthy(v: Option<Json>) {
    match v
    case None => false
    case Some(JNull) => false
    case Some(JBool(b)) => b
    case Some(JNum(n)) => n != 0.0
    case Some(JStr(s)) => s != ""
    case Some(JArr(_)) => true
    case Some(JObj(_)) => true
  }

  /** `v?.[key]` for the keys the index reads: an own property of an object, and
      `undefined` for a missing key, for `null`/`undefined` and for every non-object. */
  function Member(v: Option<Json>, key: string): Option<Json>
  {
    match v
    case Some(JObj(fields)) => if key in fields then Some(fields[key]) else None
    case _ => None
  }

  /** The `TypeError` that `String(v)` raises when it cannot turn an object into a primitive. */
  datatype JsError = TypeError

  /** `String(v)` throws on `v`: an object whose own `toString` key shadows the inherited
      method (a parsed value is never callable, and the inherited `valueOf` yields the object
      itself), or an array with such a value among its elements, which `join` converts. */
  predicate Unprintable(v: Json)
    decreases v
  {
    match v
    case JObj(fields) => "toString" in fields
    case JArr(items) => exists k | 0 <= k < |items| :: Unprintable(items[k])
    case _ => false
  }

  /** `String(v)`. Strings are themselves, objects `[object Object]`, arrays their
      elements joined by `,` with `null` elements empty; `showNumber` renders a number. */
  function ToStr(v: Json, showNumber: real -> string): (r: Result<string, JsError>)
    ensures r.Err? <==> Unprintable(v)
    decreases v, 1
  {
    match v
    case JNull => Ok("null")
    case JBool(b) => Ok(if b then "true" else "false")
    case JNum(n) => Ok(showNumber(n))
    case JStr(s) => Ok(s)
    case JObj(fields) => if "toString" in fields then Err(TypeError) else Ok("[object Object]")
    case JArr(items) => JoinFrom(v, 0, showNumber)
  }

  /** `Array.prototype.join(",")` of the elements of `arr` from index `i` on, throwing at the
      first element `String` throws on. */
  function JoinFrom(arr: Json, i: nat, showNumber: real -> string): (r: Result<string, JsError>)
    requires arr.JArr? && i <= |arr.items|
    ensures r.Err? <==> exists k | i <= k < |arr.items| :: Unprintable(arr.items[k])
    decreases arr, 0, |arr.items| - i
  {
    if i == |arr.items| then Ok("")
    else
      var item := arr.items[i];
      var shown := if item.JNull? then Ok("") else ToStr(item, showNumber);
      if shown.Err? then Err(shown.error)
      else if i + 1 == |arr.items| then shown
      else match JoinFrom(arr, i + 1, showNumber)
        case Err(e) => Err(e)
        case Ok(rest) => Ok(shown.value + "," + rest)
  }
}
