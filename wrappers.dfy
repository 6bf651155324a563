/** Option and Result, the two wrappers the model uses for Go's nil pointers
    and for Go's `(value, error)` return pairs. */
module Wrappers {

  datatype Option<+T> = None | Some(value: T)

  /** A Go `error`: only its message is observable. */
  datatype Error = Error(message: string)

  /** `Ok(v)` stands for `(v, nil)` and `Err(e)` for `(nil, e)`. */
  datatype Result<+T> = Ok(value: T) | Err(error: Error)

  function Min(a: int, b: int): int
  {
    if a < b then a else b
  }
}
