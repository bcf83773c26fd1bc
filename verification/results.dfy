/** Failure-carrying wrappers used throughout the model: an optional value and
    a success-or-error outcome, standing in for Go's `(T, error)` pairs. */
module Results {

  /** A value that may be absent. */
  datatype Option<+T> = None | Some(value: T)

  /** Either a successful value or the error that prevented it. */
  datatype Result<+R, +E> = Success(value: R) | Failure(error: E)
}
