/** Outcomes of the Python code in Dafny terms: `Option` for a document
    field that may be missing, and `Result` for a call that either returns
    or raises. `Result` supplies the three members Dafny's `:-` operator
    looks for, so a raise inside a helper aborts its caller as well. */
module Results {

  /** A value that may be absent, as a field that a document may not carry. */
  datatype Option<+T> = None | Some(value: T)

  /** The outcome of an operation that either returns a value or raises. */
  datatype Result<+T, +E> = Success(value: T) | Failure(error: E) {

    predicate IsFailure() {
      Failure?
    }

    function PropagateFailure<U>(): Result<U, E>
      requires Failure?
    {
      Failure(error)
    }

    function Extract(): T
      requires Success?
    {
      value
    }
  }
}
