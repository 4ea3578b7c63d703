/** Success/failure and optional values, as returned by the operations of the model. */
module Results {

  /** The outcome of an operation that can fail with an error value. */
  datatype Result<+T, +E> = Ok(value: T) | Err(error: E)

  /** An optional value. */
  datatype Option<+T> = None | Some(value: T)
}
