/** Failure-carrying datatypes for the (value, error) pairs that Go functions return. */
module Wrappers {

  /** `None` stands for Go's `nil` where a pointer or slice may be absent. */
  datatype Option<+T> = None | Some(value: T)

  /** A Go `error`; only its message is kept. */
  datatype Error = Error(message: string)

  /** A Go `(T, error)` pair in which exactly one half is meaningful. */
  datatype Result<+T> = Ok(value: T) | Err(error: Error)
}
