/** Optional values and results with an error, used wherever the Python code either returns
    a value or raises an exception. */
module Wrappers {

  datatype Option<+T> = None | Some(value: T) {

    /** The value, or the error `e` when there is none. */
    function ToResult<E>(e: E): Result<T, E> {
      match this
      case Some(v) => Ok(v)
      case None => Err(e)
    }
  }

  /** `Err(e)` stands for "the Python code raises an exception of kind e". */
  datatype Result<+T, +E> = Ok(value: T) | Err(error: E) {

    predicate IsFailure() {
      Err?
    }

    function PropagateFailure<U>(): Result<U, E>
      requires Err?
    {
      Err(error)
    }

    function Extract(): T
      requires Ok?
    {
      value
    }
  }
}
