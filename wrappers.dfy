// Option type used wherever the Python code returns None or a value.
module Wrappers {
  datatype Option<T> = None | Some(value: T)
  {
    predicate IsFailure() { None? }

    function GetOr(default: T): (r: T)
      ensures Some? ==> r == value
      ensures None? ==> r == default
    {
      match this
      case None => default
      case Some(v) => v
    }
  }
}
