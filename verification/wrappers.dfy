/**
 An optional value. In the store it stands for a storage key that may be absent;
 in sequence searches it is the result of a search that may find nothing.
 */
module Wrappers {

  datatype Option<T> = None | Some(value: T)
  {
    function UnwrapOr(default: T): (r: T)
      ensures Some? ==> r == value
      ensures None? ==> r == default
    {
      match this
      case Some(v) => v
      case None => default
    }
  }
}
