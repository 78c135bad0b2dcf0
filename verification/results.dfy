/** Failure-carrying values shared by the modules of the model: `Option` for
    Python's `None`-or-value, `Result` for an operation that can raise. */
module Results {

  /** A value that may be absent (Python's `None`). */
  datatype Option<+T> = None | Some(value: T)

  /** The outcome of an operation that either returns a value or raises `error`. */
  datatype Result<+T, +E> = Ok(value: T) | Err(error: E)
}
