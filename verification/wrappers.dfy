/** Small failure-carrying datatypes shared by the other modules. */
module Wrappers {

  /** An optional value: `None` stands for a side the caller left out or a
      syscall that is not told to fail. */
  datatype Option<+T> = None | Some(value: T) {

    /** The carried value, or `default` when there is none. */
    function GetOr(default: T): T {
      match this
      case Some(v) => v
      case None => default
    }
  }

  /** Either a value or an error. */
  datatype Result<+T, +E> = Success(value: T) | Failure(error: E)
}
