/** Failure-carrying datatypes used where the Swift code returns an optional or throws. */
module Wrappers {

  /** Swift's `Optional`. */
  datatype Option<+T> = None | Some(value: T)

  /** The outcome of a Swift function marked `throws`: a value, or the error it threw. */
  datatype Result<+T, +E> = Ok(value: T) | Err(error: E)
}
