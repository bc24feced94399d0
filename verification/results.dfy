/** Failure-compatible wrappers used across the model.
    `Option` stands for a Python value that may be `None`; `Result` stands for a
    computation that may raise, the `Err` side carrying what was raised. */
module Results {

  datatype Option<+T> = None | Some(value: T)

  datatype Result<+T, +E> = Ok(value: T) | Err(error: E) {

    predicate IsFailure() {
      Err?
    }

    function PropagateFailure<U>(): Result<U, E>
      requires Err?
    {
      Err(error)
    }

    function Extract(): T
      requires Ok?
    {
      value
    }
  }
}
