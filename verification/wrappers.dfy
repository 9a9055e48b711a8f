/** Result shapes used by the cache model. */
module Wrappers {

  /** A value that may be absent: a cache miss, or a record that did not decode. */
  datatype Option<+T> = None | Some(value: T)

  /** The completion of an operation that returns nothing but may raise an error. */
  datatype Outcome<+E> = Pass | Fail(error: E)
}
