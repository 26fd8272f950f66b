/** Failure-carrying results shared by the other modules. */
module Wrappers {

  /** A value that may be missing: a metric with no data, a field that did not parse. */
  datatype Option<+T> = None | Some(value: T)

  /** The outcome of an operation that can fail with an error of type E. */
  datatype Result<+T, +E> = Ok(value: T) | Err(error: E)
}
