/** Option and Result, used for Go's nil pointers and for panics. */
module Wrappers {

  /** A possibly-nil reference: `None` plays the part of Go's `nil`. */
  datatype Option<+T> = None | Some(value: T)

  /** The outcome of a call that may panic; `Err` carries the panic message. */
  datatype Result<+T> = Ok(value: T) | Err(error: string)
}
