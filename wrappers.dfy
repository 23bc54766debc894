/** Option and result types shared by the editor's modules. */
module Wrappers {

  datatype Option<+T> = None | Some(value: T)

  /** The value of a computation that may fail with an error `E`. */
  datatype Result<+R, +E> = Success(value: R) | Failure(error: E)

  /** The outcome of a command that either takes effect or fails with an error `E`. */
  datatype Outcome<+E> = Pass | Fail(error: E)
}
