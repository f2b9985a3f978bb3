/** Optional values and results shared by the other modules. */
module Wrappers {

  /** A value that may be absent: a nullable column or an optional request field. */
  datatype Option<+T> = None | Some(value: T)

  /** The outcome of a route: a response body, or the error the route raises. */
  datatype Result<+R, +E> = Ok(value: R) | Err(error: E)
}
