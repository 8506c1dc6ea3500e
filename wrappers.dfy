/** Option and Result values used for Python's missing values and exceptions. */
module Wrappers {

  /** `None` stands for a missing value (pandas' NaN) or an absent answer. */
  datatype Option<+T> = None | Some(value: T)

  /** `Err` stands for a raised exception; usable with `:-`. */
  datatype Result<+T, +E> = Ok(value: T) | Err(error: E) {

    predicate IsFailure() {
      Err?
    }

    function PropagateFailure<U>(): Result<U, E>
      requires Err?
    {
      Err(error)
    }

    function Extract(): T
      requires Ok?
    {
      value
    }
  }
}
