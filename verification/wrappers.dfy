/** Option and Result, used where the source returns nothing or throws. */
module Wrappers {

  datatype Option<+T> = None | Some(value: T)

  /** A computation that either yields a value or fails with an error, as a thrown `Error` does. */
  datatype Result<+T, +E> = Success(value: T) | Failure(error: E)
}
