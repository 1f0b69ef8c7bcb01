/** Option and Result types that stand for the null references and the
    exceptions of the C# code. */
module Wrappers {

  /** A nullable reference or an absent value. */
  datatype Option<+T> = None | Some(value: T)

  /** The exception classes the repository throws. */
  datatype Error =
    | InvalidOperation    // System.InvalidOperationException
    | KeyNotFound         // System.Collections.Generic.KeyNotFoundException
    | ArgumentOutOfRange  // System.ArgumentOutOfRangeException
    | IndexOutOfRange     // System.IndexOutOfRangeException
    | Argument            // System.ArgumentException
    | ArgumentNull        // System.ArgumentNullException

  /** The outcome of a call that returns a value or throws. */
  datatype Result<+T> = Success(value: T) | Failure(error: Error) {
    predicate IsFailure() { Failure? }
    function PropagateFailure<U>(): Result<U>
      requires Failure?
    {
      Failure(error)
    }
    function Extract(): T
      requires Success?
    {
      value
    }
  }

  /** The outcome of a call that returns nothing or throws. */
  datatype Outcome = Pass | Fail(error: Error)
}
