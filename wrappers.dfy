/** Failure-carrying datatypes shared by the modules of the model. */
module Wrappers {

  /** A value or nothing: the model of a Go `interface{}` slot that may hold nil. */
  datatype Option<+T> = None | Some(value: T)

  /** A result or a failure message: used where the source panics. */
  datatype Result<+T> = Ok(value: T) | Err(message: string)

  /** The `error` a Go function returns: nil, or an error carrying a message. */
  datatype Outcome = Pass | Fail(message: string)
}
