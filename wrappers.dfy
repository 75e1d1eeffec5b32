/** Option and Result, used for Java's null and for thrown exceptions. */
module Wrappers {

  /** `None` stands for Java's `null`. */
  datatype Option<+T> = None | Some(value: T) {
    function GetOr(default: T): T
    {
      match this
      case Some(v) => v
      case None => default
    }
  }

  /** `Failure` stands for an exception that leaves the Java method. */
  datatype Result<+T, +E> = Success(value: T) | Failure(error: E)
}
