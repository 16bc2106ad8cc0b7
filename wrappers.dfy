/** Option and Result, the two failure-compatible shapes the model uses for
    Java's nullable references / Optional results and for thrown exceptions. */
module Wrappers {

  datatype Option<+T> = None | Some(value: T)

  datatype Result<+T, +E> = Ok(value: T) | Err(error: E)
}
