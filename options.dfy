/** The optional value used throughout the model (Python's `None` or a
    value), and the outcome of an operation that can raise. */
module Options {

  datatype Option<+T> = None | Some(value: T)

  /** `Err` carries the kind of exception the source raises. */
  datatype Result<+T> = Ok(value: T) | Err(error: string)
}
