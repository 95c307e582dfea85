/** The error values the vector, share and ciphertext operations return instead of a result. */
module Errors {

  /** The kinds of error the operations report: vectors of unequal length, and shares of
      different splits combined. */
  datatype Error = DimensionMismatch | IndexMismatch

  /** A value, or the error that prevented computing it. */
  datatype Result<+T> = Ok(value: T) | Err(error: Error)
}
