/**
 * The slice of JavaScript's dynamic value model that the utilities inspect:
 * a value whose `typeof` is tested at run time, an optional value standing
 * for `null`/`undefined`, and a thrown error modelled as an outcome.
 */
module Js {

  /** A dynamically typed JavaScript argument. Numbers are idealised as reals. */
  datatype JsValue =
    | Str(s: string)
    | Num(n: real)
    | Bool(b: bool)
    | Null
    | Undefined
    | Obj
    | Arr

  /** `null` (or a missing property) versus a present value. */
  datatype Option<T> = None | Some(value: T)

  /** The two error constructors the utilities throw: `TypeError` and plain `Error`. */
  datatype ErrorKind = TypeError | GenericError

  datatype JsError = JsError(kind: ErrorKind, message: string)

  /** A call either returns a value or throws an error. */
  datatype Result<T> = Ok(value: T) | Throw(error: JsError)
}
