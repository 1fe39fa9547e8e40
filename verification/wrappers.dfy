/** Small helper types shared by every module of the model. */
module Wrappers {

  /** A value that may be absent: the model's stand-in for `std::optional` and for nullable pointers. */
  datatype Option<T> = None | Some(value: T) {
    function GetOr(default: T): (r: T)
      ensures Some? ==> r == value
      ensures None? ==> r == default
    {
      match this
      case Some(v) => v
      case None => default
    }
  }
}
