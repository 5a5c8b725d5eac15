/** The two ways a routine of operations.js can fail: each `throw new Error(...)`
    becomes a `Failure` carrying one of these errors. */
module Outcomes {

  datatype Error =
    | NotPositiveInteger  // primeFactorization with n < 1
    | NegativeFactorial   // factorial with n < 0
  {
    /** The message the source attaches to the thrown error. */
    function Message(): string {
      match this
      case NotPositiveInteger => "Input must be a positive integer."
      case NegativeFactorial => "Factorial is not defined for negative numbers."
    }
  }

  /** Each error has its own message, so the text of a caught error tells
      which check rejected the input. */
  lemma MessageIdentifiesError(e1: Error, e2: Error)
    ensures e1.Message() == e2.Message() <==> e1 == e2
  {
  }

  datatype Result<+T> = Success(value: T) | Failure(error: Error)
}
