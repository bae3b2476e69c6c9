/** Option and Result datatypes shared by all modules: Go's `nil` results and
    `(value, error)` returns are modelled with these. */
module Wrappers {

  datatype Option<+T> = None | Some(value: T)

  /** A Go `(T, error)` pair: exactly one of the two is meaningful. */
  datatype Result<+T, +E> = Ok(value: T) | Err(error: E)
}
