/** Optional values and results that may carry an error, with the `:-` protocol. */
module Wrappers {

  /** `None` stands for pandas' missing value (NaN, NaT, None). */
  datatype Option<+T> = None | Some(value: T)

  datatype Result<+T, +E> = Ok(value: T) | Err(error: E) {
    predicate IsFailure() {
      Err?
    }

    function PropagateFailure<U>(): (r: Result<U, E>)
      requires Err?
    {
      Err(error)
    }

    function Extract(): (v: T)
      requires Ok?
    {
      value
    }
  }
}
