/** Option and Result values shared by every module of the model. */
module Wrappers {

  /** A value that may be absent (a missing column, a NaN mean, a skipped station). */
  datatype Option<+T> = None | Some(value: T)

  /** The outcome of a step that may raise: its value, or the exception that aborts the script. */
  datatype Result<+T, +E> = Success(value: T) | Failure(error: E)
}
