/** Failure-compatible wrappers used across the model. */
module Wrappers {

  /** A value that may be absent: `None` stands for a collaborator call that raised. */
  datatype Option<+T> = None | Some(value: T)

  /** A value or an error message: the model of a Python call that returns or raises. */
  datatype Result<+R, +E> = Success(value: R) | Failure(error: E)
}
