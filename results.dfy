/** The success-or-error value used wherever the source raises or returns an error. */
module Results {
  datatype Result<+T, +E> = Ok(value: T) | Err(error: E)
}
