/** Optional values: a missing link, a missing user, a missing record. */
module Wrappers {
  datatype Option<+T> = None | Some(value: T)
}
