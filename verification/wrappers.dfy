/** `Option` and `Result`, as used by the model. */
module Wrappers {

  /** Python's `None` or a present value. */
  datatype Option<+T> = None | Some(value: T)

  /** A computed value, or the error the source raises or returns instead. */
  datatype Result<+R, +E> = Success(value: R) | Failure(error: E)
}
