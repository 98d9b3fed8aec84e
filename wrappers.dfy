/** Failure-carrying wrappers used throughout the model. */
module Wrappers {

  /** A value that may be missing; `None` also stands for a collaborator call that threw. */
  datatype Option<+T> = None | Some(value: T)

  /** The value an asynchronous step resolves with, or the error it rejects with. */
  datatype Result<+T, +E> = Success(value: T) | Failure(error: E)

  /** The completion of an asynchronous step that resolves with nothing. */
  datatype Outcome<+E> = Pass | Fail(error: E)
}
