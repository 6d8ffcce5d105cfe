/** Optional values, for the source's null pointers and empty columns. */
module Wrappers {
  datatype Option<+T> = None | Some(value: T)
}
