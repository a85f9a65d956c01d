/** Optional values, standing in for the nullable references of the original code. */
module Wrappers {

  datatype Option<+T> = None | Some(value: T) {

    /** The value, or `default` when there is none (C#'s `??`). */
    function GetOr(default: T): T {
      match this
      case Some(v) => v
      case None => default
    }
  }

  /** First present value of two (C#'s `a ?? b`). */
  function OrElse<T>(a: Option<T>, b: Option<T>): (r: Option<T>)
    ensures r.None? <==> a.None? && b.None?
    ensures a.Some? ==> r == a
  {
    if a.Some? then a else b
  }
}
