/** Option and Result types shared by the other modules. */
module Wrappers {

  /** A value that may be absent: Python's `None` or a missing key. */
  datatype Option<+T> = None | Some(value: T)

  /** The outcome of an operation that may raise: `Failure` stands for the
      exception that aborts the run. */
  datatype Result<+R, +E> = Success(value: R) | Failure(error: E)
}
