/** Success/failure values standing in for Go's `(value, error)` return pairs. */
module Results {

  /** Either the value an operation computed or the error it reported. */
  datatype Result<+T, +E> = Success(value: T) | Failure(error: E)
}
