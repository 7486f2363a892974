/** Option and Outcome: a missing value and a raised error as data. */
module Wrappers {

  datatype Option<+T> = None | Some(value: T)

  /** The result of an operation that either succeeds or raises `E`. */
  datatype Outcome<+E> = Pass | Fail(error: E)
}
