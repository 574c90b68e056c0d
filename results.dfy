/** Failure-carrying results: the exceptions the Java code throws become values. */
module Results {

  /** The kind of exception the source throws. */
  datatype Failure =
    | IllegalArgument   // IllegalArgumentException: a validation failed
    | IndexOutOfBounds  // IndexOutOfBoundsException and StringIndexOutOfBoundsException
    | IllegalState      // IllegalStateException: an essential header is missing

  datatype Option<+T> = None | Some(value: T)

  datatype Result<+T> = Ok(value: T) | Err(error: Failure) {

    predicate IsFailure() {
      Err?
    }

    function PropagateFailure<U>(): Result<U>
      requires Err?
    {
      Err(error)
    }

    function Extract(): T
      requires Ok?
    {
      value
    }
  }
}
