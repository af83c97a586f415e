/** The handful of JavaScript values the site's code passes around, with the
    language's truthiness and `String(v)` conversion, and the completion of a
    call that may throw. Numbers never reach these positions in the model. */
module JsValues {

  datatype Val = Undefined | Null | Bool(b: bool) | Str(s: string)

  /** JavaScript truthiness: `undefined`, `null`, `false` and `''` are falsy. */
  predicate Truthy(v: Val) {
    match v
    case Undefined => false
    case Null => false
    case Bool(b) => b
    case Str(s) => s != ""
  }

  /** `String(v)` */
  function ToStr(v: Val): string {
    match v
    case Undefined => "undefined"
    case Null => "null"
    case Bool(b) => if b then "true" else "false"
    case Str(s) => s
  }

  /** How a (possibly asynchronous) call ends: with a value, or by throwing
      (a rejected promise). */
  datatype Completion<+T> = Normal(value: T) | Threw
}
