/** Option, the Python exceptions the core raises, and results that carry them. */
module Wrappers {

  datatype Option<T> = None | Some(value: T)

  /** The two exception classes the placeholder operator can raise. */
  datatype Error =
    | ValueError(message: string)
    | KeyError(key: string)

  /** A call that either returns a value or raises. */
  datatype Result<T> = Ok(value: T) | Err(error: Error)

  /** A call that returns nothing or raises. */
  datatype Outcome = Pass | Fail(error: Error)
}
