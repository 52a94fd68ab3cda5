/** Option, Result, Outcome and JavaException: the model's stand-ins for Java's null and its exceptions. */
module Wrappers {

  /** A value that may be absent (a Java reference that may be null). */
  datatype Option<+T> = None | Some(value: T) {
    function GetOr(default: T): T {
      match this
      case Some(v) => v
      case None => default
    }
  }

  /** Either a value or the exception that the Java code throws instead. */
  datatype Result<+R, +E> = Success(value: R) | Failure(error: E)

  /** A call that returns nothing: it either completes or throws. */
  datatype Outcome<+E> = Pass | Fail(error: E)

  /** The Java runtime exceptions the modelled code throws, with their
      messages. */
  datatype JavaException =
    | NullPointer(detail: Option<string>)  // NullPointerException; requireNonNull's message, if it is given one
    | IllegalArgument(message: string)     // IllegalArgumentException
    | IllegalState(message: string)        // IllegalStateException
    | NoSuchElement                        // NoSuchElementException, as ArrayDeque.pop throws it
}
