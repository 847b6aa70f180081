/** Optional values and the outcomes of operations that may fail, shared by the model. */
module Wrappers {

  /** A value that may be absent (a nullable column, an optional argument). */
  datatype Option<T> = None | Some(value: T)

  /** The value an operation returns, or the error it raises. */
  datatype Result<T, E> = Ok(value: T) | Err(error: E)

  /** Success of an operation that returns nothing, or the error it raises. */
  datatype Outcome<E> = Pass | Fail(error: E)
}
