/** Optional values and error results shared by the model's modules. */
module Wrappers {

  /** A value that may be absent: Python's None, or SQL NULL. */
  datatype Option<+T> = None | Some(value: T) {

    /**
     * The value, or `default` when absent. Unlike Python's `x or default`,
     * a present 0 or "" is kept; where the source uses `or` on a number
     * (the rule threshold), a present 0 gives 0 either way.
     */
    function GetOr(default: T): T {
      match this
      case Some(v) => v
      case None => default
    }
  }

  /** The outcome of an operation that may fail with an error of type E. */
  datatype Result<+R, +E> = Success(value: R) | Failure(error: E)
}
