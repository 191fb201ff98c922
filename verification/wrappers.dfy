/** Failure-carrying result types shared by the framing and socket modules. */
module Wrappers {

  /** An optional value; `None`: no payload was accepted. */
  datatype Option<+T> = None | Some(value: T)

  /** Either a value or an error. */
  datatype Result<+T, +E> = Success(value: T) | Failure(error: E)
}
