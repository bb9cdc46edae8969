/** Failure-carrying values: Python's `None` and raised exceptions, made explicit. */
module Results {

  /** A value that may be absent (Python's `None`). */
  datatype Option<+T> = None | Some(value: T)

  /** Either a value or the error that was raised instead of producing it. */
  datatype Result<+T, +E> = Ok(value: T) | Err(error: E)
}
