/** Option and Result datatypes shared by the other modules. */
module Wrappers {

  /** A value that may be absent; `None` stands for Python's `None`. */
  datatype Option<+T> = None | Some(value: T)

  /** The outcome of a step that may raise instead of producing a value. */
  datatype Result<+T, +E> = Ok(value: T) | Err(error: E)
}
