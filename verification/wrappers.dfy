/** The optional-value datatype used across the diary model. */
module Wrappers {

  /** A value that may be absent: a query's `.get()` that finds nothing, an `int()` that fails. */
  datatype Option<+T> = None | Some(value: T)
}
