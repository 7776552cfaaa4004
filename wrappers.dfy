/** Option and Result, standing for Java's nullable references and thrown exceptions. */
module Wrappers {

  /** `None` is a Java `null`. */
  datatype Option<+T> = None | Some(value: T)

  /** `Err` is an exception thrown in place of a return value. */
  datatype Result<+R, +E> = Ok(value: R) | Err(error: E)
}
