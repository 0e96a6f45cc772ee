/** Option and Result values shared by the model. */
module Wrappers {

  /** A value that may be absent (a missing cell of a table). */
  datatype Option<+T> = None | Some(value: T)

  /** The outcome of a query: its value, or the error the program reports. */
  datatype Result<+T, +E> = Ok(value: T) | Err(error: E)
}
