/** The JavaScript values that reach the command builders: the loosely typed
    `arguments` of a call, the properties of an options object, and the
    elements pushed onto an argument vector. */
module JsValue {
  import opened JsText

  /** A JavaScript value. `null` behaves like `undefined` everywhere the builders
      look at a value, so one constructor stands for both. Numbers are exact
      integers. Every array the builders receive is declared `string[]`, so an
      array holds strings. */
  datatype Value =
    | Undefined
    | Str(s: string)
    | Num(n: int)
    | Bool(b: bool)
    | Arr(items: seq<string>)
    | Obj(props: map<string, Value>)

  /** JavaScript truthiness: `undefined`, `""`, `0` and `false` are falsy; arrays
      and objects are truthy even when empty. */
  predicate Truthy(v: Value) {
    match v
    case Undefined => false
    case Str(s) => s != ""
    case Num(n) => n != 0
    case Bool(b) => b
    case Arr(_) => true
    case Obj(_) => true
  }

  /** `String(v)`; an array is joined with commas. */
  function ToStr(v: Value): string {
    match v
    case Undefined => "undefined"
    case Str(s) => s
    case Num(n) => IntToString(n)
    case Bool(b) => if b then "true" else "false"
    case Arr(items) => Join(items, ",")
    case Obj(_) => "[object Object]"
  }

  /** A property read `v.key`: `undefined` unless `v` is an object holding `key`
      (none of the keys the builders read is inherited from `Object.prototype`). */
  function Prop(v: Value, key: string): Value {
    if v.Obj? && key in v.props then v.props[key] else Undefined
  }

  /** A property read on an options object. */
  function Get(options: map<string, Value>, key: string): Value {
    if key in options then options[key] else Undefined
  }

  /** Strings as values, element by element. */
  function Strs(xs: seq<string>): (r: seq<Value>)
    ensures |r| == |xs|
    ensures forall k | 0 <= k < |xs| :: r[k] == Str(xs[k])
  {
    seq(|xs|, k requires 0 <= k < |xs| => Str(xs[k]))
  }
}
