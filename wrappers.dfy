/** Option and Result: the model's stand-ins for Python's None and for raised exceptions. */
module Wrappers {

  datatype Option<+T> = None | Some(value: T) {
    /** Python's `d.get(key, default)` once the lookup has produced an Option. */
    function GetOr(default: T): T {
      match this
      case Some(v) => v
      case None => default
    }
  }

  /** `Err` stands for an exception raised by the modelled Python code. */
  datatype Result<+T, +E> = Ok(value: T) | Err(error: E)

  /** A three-way answer seen from the other side: `Ok(c)` becomes `Ok(-c)`; an error stays. */
  function Negated<E>(r: Result<int, E>): Result<int, E> {
    match r
    case Ok(c) => Ok(-c)
    case Err(e) => Err(e)
  }
}
