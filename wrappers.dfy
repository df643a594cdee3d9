/** Option and Result, the two wrappers the rest of the model uses for lookups
    that may miss and for operations that may report an error. */
module Wrappers {

  datatype Option<+T> = None | Some(value: T)

  datatype Result<+R, +E> = Success(value: R) | Failure(error: E)
}
