/** Optional values, used for a nil-able link and for lookups that may find nothing. */
module Wrappers {

  datatype Option<+T> = None | Some(value: T)
}
