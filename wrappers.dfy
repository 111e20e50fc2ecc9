/** Option and Result: the error paths of the Go source (a `nil` slice or an
    `error` return) as values. */
module Wrappers {

  datatype Option<+T> = None | Some(value: T)

  datatype Result<+R, +E> = Ok(value: R) | Err(error: E)
}
