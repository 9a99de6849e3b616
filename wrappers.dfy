/** Option and Result, used for PHP's `null`/`false` returns and for thrown exceptions. */
module Wrappers {

  /** `None` stands for PHP `null` (an unset component) or for a `false` return. */
  datatype Option<+T> = None | Some(value: T)

  /** `Failure` stands for an exception the PHP code throws. */
  datatype Result<+R, +E> = Success(value: R) | Failure(error: E)
}
