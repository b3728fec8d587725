/** The JavaScript values a request body or a job payload can hold, and JavaScript truthiness. */
module JsValues {

  datatype JsValue =
    | Undefined
    | Null
    | Bool(b: bool)
    | Num(x: real)
    | NaN
    | Str(s: string)
    | Arr(items: seq<JsValue>)
    | Obj(fields: map<string, JsValue>)

  /** `!!v`: false exactly for undefined, null, false, 0, NaN and the empty string. */
  predicate Truthy(v: JsValue) {
    match v
    case Undefined => false
    case Null => false
    case Bool(b) => b
    case Num(x) => x != 0.0
    case NaN => false
    case Str(s) => s != ""
    case Arr(_) => true
    case Obj(_) => true
  }

  /** `typeof v === 'number'` (NaN included). */
  predicate IsNumber(v: JsValue) {
    v.Num? || v.NaN?
  }

  /** `data[key]`: a missing key reads as undefined. */
  function Get(data: map<string, JsValue>, key: string): JsValue {
    if key in data then data[key] else Undefined
  }

  /** `v.key` on a value that is neither null nor undefined: only objects have the properties used here. */
  function Property(v: JsValue, key: string): JsValue {
    if v.Obj? then Get(v.fields, key) else Undefined
  }
}
