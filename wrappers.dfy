/** Option and Result: the model's stand-ins for JavaScript's NaN and thrown errors. */
module Wrappers {

  /** A value that may be absent; as a number, `None` stands for NaN. */
  datatype Option<+T> = None | Some(value: T)

  /** The outcome of an operation that throws on bad input in the source. */
  datatype Result<+T, +E> = Success(value: T) | Failure(error: E)
}
