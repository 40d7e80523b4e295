/** Option and Result, the two failure-carrying datatypes the model uses.
    `Option<Error>` stands for a Go `error` value: `None` is nil. */
module Wrappers {

  datatype Option<+T> = None | Some(value: T)

  datatype Result<+R, +E> = Success(value: R) | Failure(error: E)
}
