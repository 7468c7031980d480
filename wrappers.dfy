/** The optional-value and value-or-error types shared by the model. */
module Wrappers {

  /** An optional value; `None` stands for Go's `nil`. */
  datatype Option<+T> = None | Some(value: T)

  /** A value or an error, for Go's `(value, error)` returns. */
  datatype Result<+R, +E> = Success(value: R) | Failure(error: E)
}
