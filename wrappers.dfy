/** Option and Result, used for Python's `None` returns and raised exceptions. */
module Wrappers {

  datatype Option<+T> = None | Some(value: T)

  /** The outcome of an operation that may raise: `Err` carries the exception's message. */
  datatype Result<+T> = Ok(value: T) | Err(message: string)
}
