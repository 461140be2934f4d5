/** Option and Result values for the codec's "no frame" and error returns. */
module Wrappers {

  /** `None` stands for Python's `None` return; `Some` carries a value. */
  datatype Option<+T> = None | Some(value: T)

  /** The outcome of an operation that may raise. */
  datatype Result<+R, +E> = Success(value: R) | Failure(error: E)
}
