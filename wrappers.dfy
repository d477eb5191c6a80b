/** Option and Outcome: the absent values and the thrown errors of the source, as values. */
module Wrappers {

  /** A value that may be missing (`undefined` in the source). */
  datatype Option<+T> = None | Some(value: T) {
    function GetOr(default: T): T {
      match this
      case Some(v) => v
      case None => default
    }
  }

  /** The outcome of a check that either returns normally or throws an error with a message. */
  datatype Outcome = Pass | Fail(error: string)

  /** A value, or the message of the error thrown instead of producing it. */
  datatype Result<+T> = Ok(value: T) | Err(error: string)
}
