/** The JavaScript values the core reads from JSON files and API replies,
    with JavaScript's truthiness and property access. */
module Js {
  import opened Wrappers
  import opened Text

  /** A JSON value. Numbers are integers here: fractions and NaN are not modelled. */
  datatype JsValue =
    | Undefined
    | Null
    | Bool(b: bool)
    | Num(n: int)
    | Str(s: string)
    | Arr(elems: seq<JsValue>)
    | Obj(fields: map<string, JsValue>)

  /** JavaScript's `!!v`. */
  predicate Truthy(v: JsValue) {
    match v
    case Undefined => false
    case Null => false
    case Bool(b) => b
    case Num(n) => n != 0
    case Str(s) => s != ""
    case Arr(_) => true
    case Obj(_) => true
  }

  /** JavaScript's `a || b`: the first operand when truthy, else the second. */
  function Or(a: JsValue, b: JsValue): (r: JsValue)
    ensures Truthy(b) ==> Truthy(r)
    ensures Truthy(a) ==> r == a
    ensures !Truthy(a) ==> r == b
  {
    if Truthy(a) then a else b
  }

  /** `v.key`: None when the access throws a TypeError (on `null` and
      `undefined`), `undefined` for a missing key or a non-object. */
  function Get(v: JsValue, key: string): (r: Option<JsValue>)
    ensures r.None? <==> v.Undefined? || v.Null?
    ensures v.Obj? && key in v.fields ==> r == Some(v.fields[key])
  {
    match v
    case Undefined => None
    case Null => None
    case Obj(fields) => Some(if key in fields then fields[key] else Undefined)
    case _ => Some(Undefined)
  }

  /** `String(v)`: how a value becomes text when assigned to a DOM string
      property. Array elements are joined with commas, `null` and `undefined`
      elements giving the empty string. */
  function ToJsString(v: JsValue): string
    decreases v
  {
    match v
    case Undefined => "undefined"
    case Null => "null"
    case Bool(b) => if b then "true" else "false"
    case Num(n) => Decimal(n)
    case Str(s) => s
    case Arr(elems) =>
      JoinWithCommas(seq(|elems|, i requires 0 <= i < |elems| =>
        if elems[i].Undefined? || elems[i].Null? then "" else ToJsString(elems[i])))
    case Obj(_) => "[object Object]"
  }

  /** `Array.prototype.join(",")` on texts. */
  function JoinWithCommas(parts: seq<string>): (r: string)
    ensures |parts| == 1 ==> r == parts[0]
    ensures parts == [] ==> r == ""
  {
    if parts == [] then ""
    else if |parts| == 1 then parts[0]
    else JoinWithCommas(parts[..|parts| - 1]) + "," + parts[|parts| - 1]
  }

  /** The outcome of `JSON.parse` on a text. */
  datatype Parsed = Malformed | Json(v: JsValue)
}
