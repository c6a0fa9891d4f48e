/** Failure-carrying values: Python's `None` results and raised exceptions
    become explicit `Option` and `Result` values in this model. */
module Optional {

  /** A value that may be absent, as a Python function that may return None. */
  datatype Option<+T> = None | Some(value: T)

  /** A computation that either returns a value or raises an error. */
  datatype Result<+T, +E> = Ok(value: T) | Err(error: E)
}
