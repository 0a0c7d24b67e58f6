/** The Option and Result datatypes shared by the modules of this model. */
module Wrappers {

  /** A value that may be missing: `undefined` in an environment variable, `null` from a lookup. */
  datatype Option<+T> = None | Some(value: T)

  /** The outcome of an operation that can throw: the value, or what was thrown. */
  datatype Result<+T, +E> = Success(value: T) | Failure(error: E)
}
