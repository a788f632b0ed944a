/** Failure-carrying results used where the Go code returns an error or a nil pointer. */
module Wrappers {

  datatype Option<+T> = None | Some(value: T)

  datatype Result<+T> = Ok(value: T) | Err(message: string)
}
