/** Failure-carrying result types shared by the other modules. */
module Wrappers {

  /** A value that may be absent: a file that does not exist, a query that found nothing. */
  datatype Option<+T> = None | Some(value: T)

  /** The outcome of a step that may raise: `Failure` carries the message of the exception. */
  datatype Result<+R, +E> = Success(value: R) | Failure(error: E)
}
