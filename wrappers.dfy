/** Option and Result, the two wrappers the model uses for NaN and for errors. */
module Wrappers {

  /** `None` stands for a NaN produced by the numeric libraries. */
  datatype Option<+T> = None | Some(value: T)

  /** `Failure` stands for an exception raised by the Python code. */
  datatype Result<+T, +E> = Success(value: T) | Failure(error: E)
}
