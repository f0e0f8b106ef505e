/** Failure-carrying values shared by the model. */
module Wrappers {

  /** A value that may be missing; `None` stands for NaN in the numeric parts
      of the model and for Python's `None` elsewhere. */
  datatype Option<+T> = None | Some(value: T)

  /** The outcome of an operation that raises an exception in the source. */
  datatype Result<+R, +E> = Success(value: R) | Failure(error: E)
}
