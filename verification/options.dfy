/** Failure-compatible wrappers used in place of Java's `null` results and
    the rejected-request path. */
module Options {

  /** A word or "no match"; stands for a Java `String` that may be `null`. */
  datatype Option<+T> = None | Some(value: T)

  /** The outcome of a request: a value, or the error the server reports. */
  datatype Result<+T, +E> = Success(value: T) | Failure(error: E)
}
