/** Option and Result, the two failure-compatible wrappers the model uses for
    C#'s nullable values and for operations that throw. */
module Options {

  /** A value that may be null. */
  datatype Option<+T> = None | Some(value: T)

  /** The outcome of an operation that either returns a value or throws. */
  datatype Result<+T, +E> = Ok(value: T) | Err(error: E)
}
