/** Success/failure wrappers for the source's thrown errors and missing values. */
module Results {

  /** A computation that either yields a value or throws an error with a message. */
  datatype Result<T> = Success(value: T) | Failure(error: string)

  datatype Option<T> = None | Some(value: T)
}
