/** Option and Result values for lookups and operations that can fail. */
module Wrappers {

  datatype Option<+T> = None | Some(value: T)

  /** The outcome of an operation: a value, or the error the caller is told about. */
  datatype Result<+T, +E> = Success(value: T) | Failure(error: E)
}
