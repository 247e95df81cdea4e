/** Nullable values and the exceptions the domain throws, as data. */
module Wrappers {

  /** A C# nullable: `None` is `null`. */
  datatype Option<+T> = None | Some(value: T) {
    /** `x ?? default` */
    function GetOr(default: T): T {
      match this
      case Some(v) => v
      case None => default
    }
  }

  /** The two kinds of exception the core raises, with their messages. */
  datatype Exception =
    | ArgumentException(message: string, paramName: Option<string>)
    | InvalidOperationException(message: string)

  /** A `void` operation that either returns normally or throws. */
  datatype Outcome = Pass | Fail(error: Exception)

  /** An operation that either returns a value or throws. */
  datatype Result<+R> = Success(value: R) | Failure(error: Exception)
}
