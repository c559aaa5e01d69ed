/** Option and Outcome: the absent value of a lookup and the success or failure of a write. */
module Wrappers {

  /** A value that may be absent (JavaScript's `T | null`). */
  datatype Option<+T> = None | Some(value: T)

  /** The result of an operation that returns nothing but may throw `error`. */
  datatype Outcome<+E> = Pass | Fail(error: E)
}
