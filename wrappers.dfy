/** Small shared value types. */
module Wrappers {

  /** A value that may be absent; stands for the source's `null`. */
  datatype Option<+T> = None | Some(value: T)
}
