/** Failure-carrying result types shared by the other modules. */
module Wrappers {

  /** A value that may be missing. */
  datatype Option<+T> = None | Some(value: T)

  /** A value, or the reason it could not be computed. */
  datatype Result<+T, +E> = Ok(value: T) | Err(error: E)
}
