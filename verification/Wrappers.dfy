/** Success and failure, presence and absence, as the program's `Result` and `Option`. */
module Wrappers {
  datatype Option<+T> = None | Some(value: T)

  /** Usable with `:-`, which stands for the source's `?` operator. */
  datatype Result<+T, +E> = Ok(value: T) | Err(error: E) {
    predicate IsFailure() {
      Err?
    }

    function PropagateFailure<U>(): Result<U, E>
      requires Err?
    {
      Err(error)
    }

    function Extract(): T
      requires Ok?
    {
      value
    }
  }
}
