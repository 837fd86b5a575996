/** Option and Result types shared by the modules of this model. */
module Wrappers {

  datatype Option<+T> = None | Some(value: T)

  /** The outcome of an operation that either succeeds with a value or fails with an error kind. */
  datatype Result<+T, +E> = Ok(value: T) | Err(error: E)
}
