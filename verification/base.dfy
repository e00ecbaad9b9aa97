/** Optional values and success-or-error results shared by every module of the model. */
module Base {

  /** A value that may be absent: JavaScript's `null`/`undefined` for one field. */
  datatype Option<+T> = None | Some(value: T)

  /** The outcome of an operation that either returns a value or throws an `Error` with a message. */
  datatype Result<+T, +E> = Success(value: T) | Failure(error: E)
}
