/** Option and Result types, and the Java runtime exceptions the gallery builder can raise. */
module Wrappers {

  /** A value that may be absent; `None` stands for a Java `null`. */
  datatype Option<+T> = None | Some(value: T)

  /**
   * The unchecked exceptions that `String.substring` and `Integer.parseInt` throw.
   * The gallery builder catches neither, so each one ends the whole run.
   */
  datatype JavaException =
    | StringIndexOutOfBounds
    | NumberFormat

  /** The outcome of a Java call that either returns a value or throws. */
  datatype Result<+T> = Ok(value: T) | Throw(exception: JavaException)
}
