/**
 * The small slice of JavaScript's value world that the toolbox relies on:
 * values with their truthiness, optional values, and the two ways a
 * computation can complete (by returning or by throwing).
 */
module Js {

  /** A JavaScript value. Numbers are integers here: NaN, -0 and fractions
      play no role in the modelled code. An object is its own enumerable
      string-keyed properties. */
  datatype JsValue =
    | Undefined
    | Null
    | Bool(b: bool)
    | Num(n: int)
    | Str(s: string)
    | Obj(props: map<string, JsValue>)

  /** JavaScript truthiness: `undefined`, `null`, `false`, `0` and `""` are
      falsy; every other value, including every object, is truthy. */
  predicate Truthy(v: JsValue) {
    match v
    case Undefined => false
    case Null => false
    case Bool(b) => b
    case Num(n) => n != 0
    case Str(s) => s != ""
    case Obj(_) => true
  }

  /** An optional value; `None` also stands for "not a function" where the
      source checks whether an argument is callable. */
  datatype Option<+T> = None | Some(value: T)

  /** How a computation ends: it returns a value or throws one. */
  datatype Completion = Normal(value: JsValue) | Thrown(exception: JsValue)

  /** The error value thrown when a property is read from `null` or
      `undefined`. */
  const TypeError: JsValue := Str("TypeError")
}
