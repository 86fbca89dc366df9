/** Failure-carrying wrappers shared by every module of the model. */
module Common {

  /** A value that may be absent: Python's `None` or a missing lookup. */
  datatype Option<+T> = None | Some(value: T)

  /** The outcome of a step that either yields a value or stops with an error. */
  datatype Result<+T, +E> = Ok(value: T) | Err(error: E)
}
