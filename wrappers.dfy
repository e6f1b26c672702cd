/** Optional arguments, failures, and the two Python exceptions the core can raise. */
module Wrappers {

  /** An argument that may be left as `None`. */
  datatype Option<T> = None | Some(value: T) {
    /** The supplied value, or `default` when the argument was left out. */
    function GetOr(default: T): T {
      match this
      case Some(v) => v
      case None => default
    }
  }

  /** The exceptions raised by the core: a dictionary lookup that misses
      (Python `KeyError`) and an array subscript past the end (`IndexError`). */
  datatype Error =
    | UnknownJointName(name: string)
    | IndexOutOfRange(index: int)

  /** Either the value an operation returns or the exception it raises. */
  datatype Result<T> = Ok(value: T) | Err(error: Error)
}
