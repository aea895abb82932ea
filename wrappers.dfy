/** Option and Result values for the absent objects and the exceptions of the transcript code. */
module Wrappers {

  datatype Option<+T> = None | Some(value: T)

  /** Either a value or the error the Java code would have thrown. */
  datatype Result<+R, +E> = Ok(value: R) | Err(error: E)

  /** The outcome of a void method that may throw. */
  datatype Outcome<+E> = Pass | Fail(error: E)
}
