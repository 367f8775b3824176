/** Small shared datatypes. */
module Wrappers {

  /** A value that may be absent: the source's `null`. */
  datatype Option<T> = None | Some(value: T)
}
