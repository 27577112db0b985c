/**
 * JSON-like JavaScript values as the screens receive them from the API, with
 * the language rules the code leans on: truthiness, `String(v)` and property
 * access.  Numbers are integers.
 */
module JsValue {
  import opened JsText

  datatype Value =
    | Undefined
    | Null
    | Bool(b: bool)
    | Num(n: int)
    | Str(s: string)
    | Arr(items: seq<Value>)
    | Obj(fields: seq<(string, Value)>)

  /** `!!v`. */
  predicate Truthy(v: Value) {
    match v
    case Undefined => false
    case Null => false
    case Bool(b) => b
    case Num(n) => n != 0
    case Str(s) => s != ""
    case Arr(_) => true
    case Obj(_) => true
  }

  /** `v == null`: null or undefined. */
  predicate IsNullish(v: Value) {
    v.Undefined? || v.Null?
  }

  /** `String(v)`. */
  function ToStr(v: Value): string
    decreases v
  {
    match v
    case Undefined => "undefined"
    case Null => "null"
    case Bool(b) => if b then "true" else "false"
    case Num(n) => IntToString(n)
    case Str(s) => s
    case Arr(items) =>
      Join(seq(|items|, i requires 0 <= i < |items| =>
             if IsNullish(items[i]) then "" else ToStr(items[i])), ",")
    case Obj(_) => "[object Object]"
  }

  /** `v || ''`. */
  function OrEmpty(v: Value): (r: Value)
    ensures Truthy(v) ==> r == v
    ensures !Truthy(v) ==> r == Str("")
  {
    if Truthy(v) then v else Str("")
  }

  /** `a || b`. */
  function Or(a: Value, b: Value): (r: Value)
    ensures Truthy(a) ==> r == a
    ensures !Truthy(a) ==> r == b
  {
    if Truthy(a) then a else b
  }

  /** `Number(v)`: null and false are 0, true is 1, undefined is NaN, and
      anything else reads its `String(v)` as a number. */
  function ToNumber(v: Value): Num {
    match v
    case Undefined => NaN
    case Null => Val(0)
    case Bool(b) => Val(if b then 1 else 0)
    case Num(n) => Val(n)
    case _ => JsNumber(ToStr(v))
  }

  /** `Number(v) || fallback`: NaN and 0 are falsy. */
  function NumberOr(v: Value, fallback: int): (r: int)
    ensures ToNumber(v).Val? && ToNumber(v).v != 0 ==> r == ToNumber(v).v
    ensures !(ToNumber(v).Val? && ToNumber(v).v != 0) ==> r == fallback
  {
    var n := ToNumber(v);
    if n.Val? && n.v != 0 then n.v else fallback
  }

  /** The index of the first field named `k`, if any. */
  function FieldIndex(fields: seq<(string, Value)>, k: string): (r: int)
    ensures -1 <= r < |fields|
    ensures r >= 0 ==> fields[r].0 == k && forall j :: 0 <= j < r ==> fields[j].0 != k
    ensures r == -1 ==> forall j :: 0 <= j < |fields| ==> fields[j].0 != k
  {
    if fields == [] then -1
    else if fields[0].0 == k then 0
    else
      var r := FieldIndex(fields[1..], k);
      if r == -1 then -1 else r + 1
  }

  /** `v[k]` for an object; any other value has no such property. */
  function Get(v: Value, k: string): Value {
    if v.Obj? then
      var i := FieldIndex(v.fields, k);
      if i >= 0 then v.fields[i].1 else Undefined
    else Undefined
  }

  /** `typeof v === 'string'`. */
  predicate IsString(v: Value) {
    v.Str?
  }
}
