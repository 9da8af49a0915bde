/** Option and Result types shared by every module of the model. */
module Wrappers {

  datatype Option<T> = None | Some(value: T)

  /** A computation that either yields a value or fails with the error the source throws. */
  datatype Result<T, E> = Success(value: T) | Failure(error: E)
}
