/** Option and Result types: values that may be absent, and operations
    that abort the run with a message. */
module Wrappers {

  datatype Option<+T> = None | Some(value: T)

  datatype Result<+T, +E> = Success(value: T) | Failure(error: E)
}
