/** Option, Result and Outcome types shared by the model. */
module Wrappers {
  datatype Option<T> = None | Some(value: T)

  /** A value, or the error an operation raised instead. */
  datatype Result<T, E> = Ok(value: T) | Err(error: E)

  /** An operation that either completes or raises. */
  datatype Outcome<E> = Pass | Fail(error: E)
}
