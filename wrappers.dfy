/** Small result types for the one exception the dictionary raises. */
module Wrappers {

  datatype Option<T> = None | Some(value: T)

  /** Python's `KeyError`. */
  datatype Error = KeyError

  /** The outcome of a read that may raise: a value, or the exception raised. */
  datatype Result<T> = Ok(value: T) | Err(error: Error)

  /** The outcome of a statement that may raise and otherwise returns nothing. */
  datatype Outcome = Pass | Fail(error: Error)
}
