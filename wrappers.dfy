/** Failure-carrying values shared by the other modules. */
module Wrappers {

  /** A value that may be absent: `undefined`, `NaN` or a lookup that found nothing. */
  datatype Option<+T> = None | Some(value: T)

  /** The outcome of an operation that can throw: its value, or the message of the error. */
  datatype Result<+R> = Success(value: R) | Failure(error: string)
}
