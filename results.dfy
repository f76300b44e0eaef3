/** `Option` and `Result`, shared by the modules of this model. */
module Results {

  /** A value that may be absent (Python's `None`). */
  datatype Option<T> = None | Some(value: T)

  /** The outcome of an operation that may raise: `Err` carries the exception the source would raise. */
  datatype Result<T, E> = Ok(value: T) | Err(error: E)
}
