/** Failure-compatible wrappers: Option stands for a Java reference that may be null. */
module Wrappers {

  datatype Option<+T> = None | Some(value: T) {
    predicate IsFailure() { None? }

    function PropagateFailure<U>(): Option<U>
      requires None?
    {
      None
    }

    function Extract(): T
      requires Some?
    {
      value
    }
  }

  /** The outcome of an operation that either completes or throws a checked exception `E`. */
  datatype Outcome<+E> = Pass | Fail(error: E)
}
