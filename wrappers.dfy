/** Option and Result values used for the error returns and nil results of the modelled code. */
module Wrappers {
  datatype Option<T> = None | Some(value: T)

  /** A Go `(value, error)` pair: either a value or the error message. */
  datatype Result<T> = Ok(value: T) | Err(error: string)
  {
    predicate IsOk() { Ok? }
  }
}
