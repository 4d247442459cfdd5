/** Optional values: a missing table entry, a null pointer. */
module Wrappers {
  datatype Option<+T> = None | Some(value: T)
}
