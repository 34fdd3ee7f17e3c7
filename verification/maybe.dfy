/** Optional values and results with an error message, used across the model. */
module Maybe {

  /** A value that may be absent: JavaScript's `undefined` / `null` return. */
  datatype Option<+T> = None | Some(value: T)

  /** A computation that either produced a value or raised an error. */
  datatype Result<+T> = Success(value: T) | Failure(error: string)
}
