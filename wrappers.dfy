/** Error-carrying results, standing in for Go's `(value, error)` return pairs. */
module Wrappers {

  datatype Option<+T> = None | Some(value: T)

  /** `Ok(v)` is a nil error with value `v`; `Err(e)` is a non-nil error `e`. */
  datatype Result<+T, +E> = Ok(value: T) | Err(error: E)

  /** The result of a Go function that returns only an `error`. */
  datatype Outcome<+E> = Pass | Fail(error: E)
}
