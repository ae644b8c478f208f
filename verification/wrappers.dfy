/** Failure-carrying datatypes used by every module of the model: the
    Python source raises exceptions, which become `Failure` values here. */
module Wrappers {

  /** A value that may be absent. */
  datatype Option<+T> = None | Some(value: T)

  /** Either a computed value or the error the source would raise. */
  datatype Result<+R, +E> = Success(value: R) | Failure(error: E)
}
