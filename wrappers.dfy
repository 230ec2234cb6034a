/** Small helper datatype shared by the other modules. */
module Wrappers {

  /** A value that may be missing (Python's `None`). */
  datatype Option<T> = None | Some(value: T)
}
