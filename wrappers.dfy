/** Failure-carrying result types used in place of java.util.Optional and of thrown exceptions. */
module Wrappers {

  /** java.util.Optional: either empty or holding one value. */
  datatype Option<+T> = None | Some(value: T)

  /** A value, or the error a Java method would have thrown instead of returning. */
  datatype Result<+T, +E> = Ok(value: T) | Err(error: E)
}
