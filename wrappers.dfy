/** Option and Result values used in place of Ruby's nil and raised errors. */
module Wrappers {

  /** A value that may be absent (Ruby's nil). */
  datatype Option<+T> = None | Some(value: T) {

    /** The held value, or `default` when absent (Ruby's `x || default`). */
    function GetOr(default: T): (r: T)
      ensures Some? ==> r == value
      ensures None? ==> r == default
    {
      match this
      case Some(v) => v
      case None => default
    }
  }

  /** The outcome of an operation that may raise. */
  datatype Result<+T> = Success(value: T) | Failure(error: string)
}
