/** Option and Result, used where the Go code returns nothing or calls log.Fatalf. */
module Wrappers {

  datatype Option<+T> = None | Some(value: T)

  datatype Result<+T, +E> = Ok(value: T) | Err(error: E)
}
