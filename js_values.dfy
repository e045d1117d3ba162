/** Primitive JavaScript values, as far as the attendance handler compares and tests them. */
module JsValues {

  datatype Option<T> = None | Some(value: T)

  /**
   * A primitive value carried by a JSON request body. A field the body does not
   * have reads as `Undefined`. `Num` holds the value of the double that
   * `JSON.parse` produced (the rounding of the decimal text to a double is not
   * modelled); NaN cannot come out of JSON and is not represented. Two values
   * are strictly equal (`===`) exactly when they are equal as Dafny values.
   */
  datatype JsValue = Undefined | Null | Bool(b: bool) | Num(n: real) | Str(s: string)

  /** JavaScript's `!v`: `undefined`, `null`, `false`, `0` and the empty string are falsy. */
  predicate Falsy(v: JsValue)
    ensures Falsy(v) <==> v in {Undefined, Null, Bool(false), Num(0.0), Str("")}
  {
    match v
    case Undefined => true
    case Null => true
    case Bool(b) => !b
    case Num(n) => n == 0.0
    case Str(s) => s == ""
  }
}
