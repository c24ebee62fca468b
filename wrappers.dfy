/** Optional values: an absent form field, a lookup that finds nothing. */
module Wrappers {
  datatype Option<+T> = None | Some(value: T)
}
