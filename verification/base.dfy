/** Failure-carrying datatypes shared by the import pipeline. */
module Base {

  /** A value that may be absent, such as a regex capture that did not match. */
  datatype Option<+T> = None | Some(value: T) {

    /** The value, or `default` when absent. */
    function GetOr(default: T): T {
      match this
      case Some(v) => v
      case None => default
    }
  }

  /** The one exception the pipeline can raise before touching the database:
      `strpos` called with an offset past the end of its subject, which PHP 8
      reports as a ValueError. `line` is the offending trimmed line. */
  datatype Error = OffsetOutOfRange(line: string)

  /** The result of a step that can throw. */
  datatype Result<+T> = Ok(value: T) | Err(error: Error)
}
