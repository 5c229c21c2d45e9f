// The exception kinds the library throws, and the result wrappers that carry
// them through the model.

module Errors {

  /** The four standard exception classes the library raises. */
  datatype Error =
    | InvalidArgument   // std::invalid_argument: mismatched shapes, bad ranges
    | OutOfRange        // std::out_of_range: an index outside the axis
    | LogicError        // std::logic_error: use of an invalid matrix or iterator
    | RuntimeError      // std::runtime_error: a null source buffer

  /** A value, or the exception that was thrown instead. */
  datatype Result<T> = Success(value: T) | Failure(error: Error) {
    predicate IsFailure() {
      Failure?
    }

    function PropagateFailure<U>(): Result<U>
      requires Failure?
    {
      Failure(error)
    }

    function Extract(): T
      requires Success?
    {
      value
    }
  }

  /** The outcome of an operation that returns nothing. */
  datatype Outcome = Pass | Fail(error: Error) {
    predicate IsFailure() {
      Fail?
    }

    function PropagateFailure(): Outcome
      requires Fail?
    {
      this
    }
  }

  /** An optional value. */
  datatype Option<T> = None | Some(value: T)
}
