/**
 * Values and failures shared by every component: an optional value (which also
 * stands for a Java reference that may be null), the Java exceptions the core
 * throws or passes on, and a result that is either a value or a thrown exception.
 */
module Failures {

  datatype Option<+T> = None | Some(value: T) {
    function GetOr(default: T): T {
      match this
      case Some(v) => v
      case None => default
    }
  }

  /**
   * A Java Throwable. `Unchecked` is a RuntimeException (of the named class),
   * which the retry helper passes on unchanged; `Checked` is any other Throwable
   * (a checked exception or an Error), which it wraps.
   */
  datatype Throwable =
    | Unchecked(className: string, message: string, cause: Option<Throwable>)
    | Checked(className: string, message: string)

  /** The outcome of a Java call: it returned a value, or it threw. */
  datatype Result<+T> = Ok(value: T) | Err(error: Throwable)

  function IllegalArgument(message: string): Throwable {
    Unchecked("IllegalArgumentException", message, None)
  }

  function IllegalState(message: string): Throwable {
    Unchecked("IllegalStateException", message, None)
  }

  /** `new RuntimeException(message, cause)`. */
  function WrappedRuntime(message: string, cause: Throwable): Throwable {
    Unchecked("RuntimeException", message, Some(cause))
  }
}
