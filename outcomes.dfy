/** Option and Result for the model's error paths. */
module Outcomes {

  datatype Option<+T> = None | Some(value: T)

  /** Either a value or the error the source would have raised instead. */
  datatype Result<+T, +E> = Success(value: T) | Failure(error: E)
}
