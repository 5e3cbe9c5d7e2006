/** Option and Result values: Java's `null` returns and thrown exceptions, made explicit. */
module Wrappers {

  /** `None` stands for Java's `null`. */
  datatype Option<+T> = None | Some(value: T)

  /** `Failure` stands for an exception that the Java method throws. */
  datatype Result<+T, +E> = Success(value: T) | Failure(error: E)
}
