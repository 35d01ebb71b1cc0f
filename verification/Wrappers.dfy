/** A value that may be missing: the NULL results of the allocators. */
module Wrappers {
  datatype Option<+T> = None | Some(value: T)
}
