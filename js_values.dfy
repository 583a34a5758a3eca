/** The JSON values that a parsed request body or a catalogue record field can hold. */
module JsValues {

  /** `Undefined` is a property that is not there at all. */
  datatype JsValue =
    | Undefined
    | Null
    | Bool(b: bool)
    | Number(n: real)
    | Str(s: string)
    | Array(elems: seq<JsValue>)
    | Object(fields: seq<(string, JsValue)>)

  /** JavaScript truthiness: undefined, null, false, 0 and "" are falsy; every array and
      every object, the empty ones included, is truthy. (JSON has no NaN.) */
  predicate Truthy(v: JsValue): (b: bool)
    ensures b <==> !(v == Undefined || v == Null || v == Bool(false) || v == Number(0.0) || v == Str(""))
  {
    match v
    case Undefined => false
    case Null => false
    case Bool(b) => b
    case Number(n) => n != 0.0
    case Str(s) => s != ""
    case Array(_) => true
    case Object(_) => true
  }
}
