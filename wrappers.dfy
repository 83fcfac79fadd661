/** Option and Result, the stand-ins for Kotlin's nullable types and kotlin.Result. */
module Wrappers {

  /** A Kotlin `T?`: `None` is `null`. */
  datatype Option<+T> = None | Some(value: T) {
    /** Kotlin's elvis operator `x ?: default`. */
    function GetOr(default: T): T {
      match this
      case Some(v) => v
      case None => default
    }
  }

  /** kotlin.Result, or a function that either returns a value or throws. */
  datatype Result<+T, +E> = Success(value: T) | Failure(error: E)
}
