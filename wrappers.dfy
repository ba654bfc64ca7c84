/** Option, Result and Outcome: the shapes every handler's answer takes. */
module Wrappers {
  datatype Option<+T> = None | Some(value: T)

  datatype Result<+T, +E> = Ok(value: T) | Err(error: E)

  /** The answer of an operation that returns nothing but may fail (`{ ok: true }`). */
  datatype Outcome<+E> = Pass | Fail(error: E)
}
