/** The shapes shared by the models: Go's `(value, error)` pair, a value that may be absent, and a database error. */
module Wrappers {

  datatype Option<+T> = None | Some(value: T)

  datatype Result<+T, +E> = Success(value: T) | Failure(error: E)

  datatype DbError = DbError(message: string)
}
