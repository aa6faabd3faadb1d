/** Option and Result values used across the model. */
module Wrappers {

  /** A value that may be absent (`null` / `undefined` in the source). */
  datatype Option<+T> = None | Some(value: T)

  /** The `{ data, error }` pair returned by backend calls: either data or an error message. */
  datatype Result<+T> = Success(value: T) | Failure(error: string)
}
