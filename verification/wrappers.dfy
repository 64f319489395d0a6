/** Failure-carrying result types shared by every page model. */
module Wrappers {

  /** A value that may be absent (JavaScript's `undefined`/`NaN` results). */
  datatype Option<+T> = None | Some(value: T)

  /** Either a computed value or the reason an operation refused its input. */
  datatype Result<+T, +E> = Success(value: T) | Failure(error: E)
}
