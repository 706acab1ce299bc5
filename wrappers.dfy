/** Absent-or-present values and success-or-failure values, used across the model. */
module Wrappers {
  /** `None` stands for JavaScript's `undefined` or `null`. */
  datatype Option<T> = None | Some(value: T)

  /** The outcome of a storage statement that may raise. */
  datatype Result<T, E> = Ok(value: T) | Err(error: E)
}
