/** The optional-value and parse-result types shared by the attendance model. */
module Wrappers {

  /** A value that may be missing: SQL NULL, or a JavaScript `undefined`. */
  datatype Option<+T> = None | Some(value: T) {

    /** The wrapped value, or `default` when there is none. */
    function GetOr(default: T): T {
      match this
      case Some(v) => v
      case None => default
    }
  }

  /** The outcome of parsing a request: the parsed value or the reasons it was refused. */
  datatype Result<+R, +E> = Success(value: R) | Failure(error: E)
}
