/** Failure-compatible wrappers used across the model: an optional value and
    a pass/fail outcome carrying one of the server's error values. */
module Wrappers {

  datatype Option<+T> = None | Some(value: T)

  datatype Outcome<+E> = Pass | Fail(error: E)

  datatype Result<+R, +E> = Success(value: R) | Failure(error: E)
}
