/** Sum types for the three shapes a Java call takes in this model: a
    reference that may be null, a call that returns or throws, and a `void`
    call that completes or throws. */
module Wrappers {

  /** A nullable reference: `None` is Java's `null`. */
  datatype Option<+T> = None | Some(value: T) {

    /** `x != null ? x : fallback` */
    function OrElse(fallback: T): T {
      if Some? then value else fallback
    }
  }

  /** A call that either returns normally or throws an exception of type `E`. */
  datatype Result<+T, +E> = Success(value: T) | Failure(error: E)

  /** A `void` call that either completes or throws. */
  datatype Outcome<+E> = Pass | Fail(error: E)
}
