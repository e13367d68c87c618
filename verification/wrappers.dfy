/** Failure-carrying datatypes used by the model: `Option` for searches that
    may find nothing and `Result` for operations that raise in the source. */
module Wrappers {

  datatype Option<+T> = None | Some(value: T)

  datatype Result<+R, +E> = Success(value: R) | Failure(error: E)
}
