/** The optional value and the value-or-error result used across the
    model. */
module Wrappers {

  datatype Option<+T> = None | Some(value: T)

  /** Either a computed value or the error that txdedit reports by throwing. */
  datatype Result<+T, +E> = Success(value: T) | Failure(error: E)
}
