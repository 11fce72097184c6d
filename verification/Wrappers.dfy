/** Optional values, results that carry a success or an error, and the error of machine arithmetic. */
module Wrappers {

  datatype Option<+T> = None | Some(value: T)

  datatype Result<+T, +E> = Ok(value: T) | Err(error: E)

  /** A sum or product that does not fit the machine integer it is computed in. */
  datatype Overflow = Overflow
}
