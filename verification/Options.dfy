/** Result types shared by the models. */
module Options {

  /** A value that may be absent: Python's None and JSON's null. */
  datatype Option<+T> = None | Some(value: T)

  /** A computation that may raise. */
  datatype Result<+T, +E> = Ok(value: T) | Err(error: E)
}
