/** Failure-carrying datatypes shared by every layer of the model.
    - Option<T>: a value or nothing.
    - Result<T, E>: what a Go function returning `(T, error)` means when its
      callers never look at the value once the error is set.
    - Outcome<E>: what a Go function returning only `error` means.
 */
module Wrappers {

  datatype Option<+T> = None | Some(value: T)

  datatype Result<+T, +E> = Success(value: T) | Failure(error: E)

  datatype Outcome<+E> = Pass | Fail(error: E)
}
