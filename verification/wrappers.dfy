/** Failure-carrying result types shared by every module of the model. */
module Wrappers {

  /** The value-or-nothing shape JavaScript expresses with `null`. */
  datatype Option<+T> = None | Some(value: T)

  /** The outcome of a JavaScript operation that either returns a value or
      throws an `Error`. */
  datatype Result<+T, +E> = Success(value: T) | Failure(error: E)
}
