/** Missing values and raised errors.

    Every table cell that pandas may hold as NaN is an `Option`; every Python
    exception the modelled code raises on purpose is an `Err` of `Result`. */
module Wrappers {

  /** A cell that may be missing (NaN / None in the source). */
  datatype Option<+T> = None | Some(value: T) {
    function GetOr(default: T): T {
      match this
      case Some(v) => v
      case None => default
    }
  }

  /** The Python exception classes the modelled code raises. */
  datatype PyError = ValueError(message: string) | IndexError(message: string) | TypeError(message: string)

  /** The outcome of an operation that may raise. */
  datatype Result<+T> = Ok(value: T) | Err(error: PyError)
}
