/** Nullable values and operations that may throw. */
module Wrappers {

  /** A C# reference or nullable value: `None` is `null`. */
  datatype Option<+T> = None | Some(value: T) {

    /** The C# `??` operator. */
    function GetOr(default: T): T
    {
      match this
      case Some(v) => v
      case None => default
    }
  }

  /** The outcome of an operation that may throw: `Failure` carries the exception. */
  datatype Result<+T, +E> = Success(value: T) | Failure(error: E)
}
