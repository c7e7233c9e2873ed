/** A value or its absence: the source's null pointers and failure returns. */
module Wrappers {
  datatype Option<+T> = None | Some(value: T)
}
