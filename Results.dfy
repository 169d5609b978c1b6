/** Failure-compatible result and option types shared by the decoding stages.
    A Rust `panic!` (an `unwrap` on an error, an index out of bounds) aborts the
    whole run; the model returns it as an error value instead. */
module Results {

  datatype Option<+T> = None | Some(value: T)

  datatype Result<+T, +E> = Ok(value: T) | Err(error: E) {

    predicate IsFailure() {
      Err?
    }

    function PropagateFailure<U>(): Result<U, E>
      requires Err?
    {
      Err(error)
    }

    function Extract(): T
      requires Ok?
    {
      value
    }
  }
}
