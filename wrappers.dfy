/** Small failure-compatible wrappers used across the model. */
module Wrappers {

  /** An optional value: JavaScript's `null` / `undefined` of an absent field or result. */
  datatype Option<+T> = None | Some(value: T)

  /** The outcome of an operation that either succeeds or is rejected with an error. */
  datatype Outcome<+E> = Pass | Fail(error: E)
}
