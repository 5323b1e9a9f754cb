/** Option and Result: absent values and failing computations. */
module Wrappers {

  /** A value that may be missing (a null reference or DBNull in the program). */
  datatype Option<+T> = None | Some(value: T)

  /** A computation that either yields a value or fails with an error
      (an exception that the program leaves unhandled). */
  datatype Result<+T, +E> = Ok(value: T) | Err(error: E)
}
