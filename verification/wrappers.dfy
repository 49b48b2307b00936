/** Failure-compatible wrappers shared by the whole model.
    - Option<T> stands for the code's optional fields (`x?: T`, `undefined`).
    - Fetch<T> stands for the outcome of one call into the registry: either the
      decoded body, or the failure the caller's `catch` sees. The network itself
      is not modelled; every operation that talks to it takes a Fetch as input.
 */
module Wrappers {

  datatype Option<+T> = None | Some(value: T) {

    /** Returns the value in Some, or the given default for None */
    function GetOr(default: T): T
    {
      match this
      case Some(v) => v
      case None => default
    }
  }

  /** Outcome of one registry request. */
  datatype Fetch<+T> = Fetched(value: T) | FetchFailed(reason: string)
}
