/** Small datatypes shared by the modules. */
module Common {

  /** A value that may be absent (a nullable column, a lookup that can miss). */
  datatype Option<+T> = None | Some(value: T)

  /** The outcome of a fallible operation; failures carry a reason. */
  datatype Result<+T, +E> = Ok(value: T) | Err(error: E)
}
