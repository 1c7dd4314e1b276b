/** Option and Result: the model's stand-ins for Java's nullable references and
    checked exceptions. */
module Wrappers {

  /** A nullable value: `None` plays the part of Java's `null`. */
  datatype Option<+T> = None | Some(value: T) {
    function GetOr(default: T): T {
      match this
      case Some(v) => v
      case None => default
    }
  }

  /** Either a value or the error a Java method would have thrown. */
  datatype Result<+R, +E> = Ok(value: R) | Err(error: E)
}
