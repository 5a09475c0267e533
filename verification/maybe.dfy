/** Optional values and outcomes that may carry a thrown JavaScript error.
    `Option` stands for a value that may be `undefined`/`null`; `Result` stands for a
    computation that may throw (the message names the JavaScript error). */
module Maybe {

  datatype Option<+T> = None | Some(value: T) {

    /** The value, or a default when absent (JavaScript's `x ?? d` on a defined/undefined value). */
    function GetOr(default: T): T {
      match this
      case Some(v) => v
      case None => default
    }
  }

  datatype Result<+T> = Ok(value: T) | Err(message: string)
}
