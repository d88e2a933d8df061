/** Failure-compatible result type standing in for the exceptions the
    converter throws. Each error constructor corresponds to one `throw` site. */
module Results {

  /** The error conditions of the converter. */
  datatype Error =
    | EmptyState                      // State.of on an empty name set
    | MalformedState(token: string)   // a state token not of the form "{x}"
    | MalformedTransition(line: string) // a rule line not of the form "A, x = B"
    | TooFewLines                     // an input description shorter than five lines

  datatype Result<+T> = Success(value: T) | Failure(error: Error) {

    predicate IsFailure() {
      Failure?
    }

    function PropagateFailure<U>(): Result<U>
      requires Failure?
    {
      Failure(error)
    }

    function Extract(): T
      requires Success?
    {
      value
    }
  }
}
