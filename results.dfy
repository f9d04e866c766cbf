/** Option and Result: the outcomes of operations that may fail instead of throwing. */
module Results {

  datatype Option<+T> = None | Some(value: T)

  /** Ok carries the value an operation returns, Err the exception it would throw. */
  datatype Result<+T, +E> = Ok(value: T) | Err(error: E) {

    predicate IsFailure() {
      Err?
    }

    function PropagateFailure<U>(): Result<U, E>
      requires Err?
    {
      Err(error)
    }

    function Extract(): T
      requires Ok?
    {
      value
    }
  }
}
