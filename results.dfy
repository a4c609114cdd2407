/** The outcome of an operation that may raise: a value, or the error it raised. */
module Results {
  datatype Result<+T, +E> = Ok(value: T) | Err(error: E)
}
