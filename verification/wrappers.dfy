/** Option and Result, the failure-carrying datatypes every service operation returns. */
module Wrappers {

  /** A value that may be absent; for request bodies, `None` is a property the client left out. */
  datatype Option<+T> = None | Some(value: T) {

    /** The wrapped value, or `default` when absent. */
    function GetOr(default: T): (r: T)
      ensures Some? ==> r == value
      ensures None? ==> r == default
    {
      match this
      case Some(v) => v
      case None => default
    }
  }

  /** The outcome of a service call: a value, or the exception the service would throw. */
  datatype Result<+T, +E> = Success(value: T) | Failure(error: E)
}
