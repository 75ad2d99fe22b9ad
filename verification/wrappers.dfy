/** Failure-compatible datatypes shared by the whole model.

    Java's `null` is `None`; the exceptions the library throws on bad
    arguments are the `Error` values carried by `Failure`. */
module Wrappers {

  /** A value that may be Java `null` (or an `Optional` that may be empty). */
  datatype Option<+T> = None | Some(value: T)

  /** The Java exception classes the modelled code raises. */
  datatype Error =
    | IllegalArgument   // java.lang.IllegalArgumentException
    | IllegalState      // java.lang.IllegalStateException, e.g. a duplicate key in toMap
    | NullPointer       // java.lang.NullPointerException
    | NoSuchElement     // java.util.NoSuchElementException, e.g. Optional.get() on empty

  /** The outcome of a call that either returns a value or throws. */
  datatype Result<+R> = Success(value: R) | Failure(error: Error) {

    predicate IsFailure() {
      Failure?
    }

    function PropagateFailure<U>(): Result<U>
      requires Failure?
    {
      Failure(error)
    }

    function Extract(): R
      requires Success?
    {
      value
    }
  }
}
