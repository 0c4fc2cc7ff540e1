/** Option and Result, the two wrappers the rest of the model uses for the
    source's `None` values and raised errors. */
module Basics {

  datatype Option<+T> = None | Some(value: T)

  datatype Result<+T, +E> = Success(value: T) | Failure(error: E)
}
