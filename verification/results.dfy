/** Failure-carrying wrappers shared by the codec modules. */
module Results {

  /** An optional value. */
  datatype Option<+T> = None | Some(value: T)

  /** The outcome of a fallible operation: a value, or the error that stopped it. */
  datatype Result<+T, +E> = Ok(value: T) | Err(error: E)
}
