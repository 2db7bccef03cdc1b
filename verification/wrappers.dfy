/** Failure-carrying results for the handlers: a value, or the reason there is none. */
module Wrappers {

  /** A value that may be absent (a nullable field such as a rejected loan's `loan_id`). */
  datatype Option<+T> = None | Some(value: T)

  /** The outcome of a handler: a response, or an error the request layer turns into a status. */
  datatype Result<+T, +E> = Ok(value: T) | Err(error: E)
}
