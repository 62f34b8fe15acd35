/** The JavaScript values that reach the scraper from a request body. */
module Js {

  /** A string, or any other JavaScript value, of which only its truthiness
      matters here (`undefined`, `null`, `0`, `false` are falsy; an object
      or a non-zero number is truthy). */
  datatype JsValue = Str(s: string) | NonString(truthy: bool)

  /** JavaScript truthiness: a string is truthy exactly when it is not empty. */
  predicate IsTruthy(v: JsValue) {
    match v
    case Str(s) => s != ""
    case NonString(t) => t
  }

  /** The negation of `!v || typeof v !== 'string'`. */
  predicate IsNonEmptyString(v: JsValue) {
    v.Str? && v.s != ""
  }
}
