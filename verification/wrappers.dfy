/** Failure-compatible result types shared by the registry and the change model. */
module Wrappers {

  /** An optional value: `None` stands for Go's nil. */
  datatype Option<+T> = None | Some(value: T)

  /** A value or an error, the model of Go's `(value, error)` return pair. */
  datatype Result<+R, +E> = Success(value: R) | Failure(error: E)
}
