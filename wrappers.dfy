/** Option and Result: the absent value (`undefined` in the source) and an
    operation that either yields a value or fails with an error. */
module Wrappers {

  datatype Option<+T> = None | Some(value: T)

  datatype Result<+T, +E> = Success(value: T) | Failure(error: E)
}
