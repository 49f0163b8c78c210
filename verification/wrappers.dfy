/** Small failure-compatible wrapper shared by the replacer and the buffer pool. */
module Wrappers {

  /** A value that may be absent: a frame id or nothing, where the source
      returns false / nullptr. */
  datatype Option<+T> = None | Some(value: T)
}
