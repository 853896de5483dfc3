/** Optional values: C's NULL pointers and missing entries. */
module Wrappers {
  datatype Option<+T> = None | Some(value: T)
}
