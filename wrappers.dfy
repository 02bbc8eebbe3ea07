/** A value that may be absent: Python's `Optional[...]`, `None` included. */
module Wrappers {
  datatype Option<+T> = None | Some(value: T)
}
