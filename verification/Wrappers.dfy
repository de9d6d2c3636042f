// The two failure-carrying datatypes the other modules share.
module Wrappers {

  datatype Option<+T> = None | Some(value: T)
  {
    // The value, or `default` when there is none.
    function GetOr(default: T): T {
      match this
      case Some(v) => v
      case None => default
    }
  }

  // `a` when it holds a value, otherwise `b`.
  function OrElse<T>(a: Option<T>, b: Option<T>): Option<T> {
    if a.Some? then a else b
  }

  datatype Result<+R, +E> = Success(value: R) | Failure(error: E)
}
