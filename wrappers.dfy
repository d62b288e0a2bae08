/** The exceptions the core raises, and the result types that carry them. */
module Wrappers {

  /** `KeyError(key)` is raised by a dictionary read of an absent key,
      `IndexError` by a matrix write outside the matrix's dimensions. */
  datatype Error = KeyError(key: string) | IndexError

  /** A value, or the exception that was raised instead of returning one. */
  datatype Option<T> = None | Some(value: T)
  datatype Result<T> = Ok(value: T) | Err(error: Error)

  /** The outcome of an operation that returns nothing (Python's `None`) or raises. */
  datatype Outcome = Pass | Fail(error: Error)
}
