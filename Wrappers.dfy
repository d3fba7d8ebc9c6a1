/** Optional values (Java's nullable references) and results (Java's exceptions). */
module Wrappers {

  /** A nullable reference: `None` stands for Java's `null`. */
  datatype Option<+T> = None | Some(value: T) {
    function GetOr(default: T): T {
      match this
      case Some(v) => v
      case None => default
    }
  }

  /** The outcome of a computation that may throw: `Failure` carries the exception's name. */
  datatype Result<+T> = Success(value: T) | Failure(error: string)
}
