/** Optional values and outcomes, for what the scanner signals with None or an exception. */
module Wrappers {
  datatype Option<+T> = None | Some(value: T)

  /** `Failure` stands for every raised ValueError; its wording is not modelled. */
  datatype Result<+T> = Success(value: T) | Failure {
    predicate IsFailure() {
      Failure?
    }

    function PropagateFailure<U>(): Result<U>
      requires Failure?
    {
      Failure
    }

    function Extract(): T
      requires Success?
    {
      value
    }
  }
}
