/** Failure-carrying values shared by the other modules. */
module Wrappers {

  /** A value that may be missing: Ruby's nil, a C NULL, a Python None. */
  datatype Option<+T> = None | Some(value: T)
}
