/** Failure-carrying wrappers shared by the model.
    A Python exception raised by the modelled code becomes an `Err`; a Python `None`
    becomes `None`. */
module Results {

  /** A value that may be absent (Python's `None`). */
  datatype Option<+T> = None | Some(value: T)

  /** The outcome of a step that may raise: its value, or the message of the exception. */
  datatype Result<+T> = Ok(value: T) | Err(message: string)
}
