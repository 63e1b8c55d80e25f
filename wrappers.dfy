/** Option and Result values for the error paths of the collections. */
module Wrappers {

  datatype Option<+T> = None | Some(value: T)

  /** The Python exceptions the core raises. */
  datatype Error = IndexError | KeyError

  datatype Result<+T> = Ok(value: T) | Err(error: Error)
}
