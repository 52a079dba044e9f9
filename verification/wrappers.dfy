/** Optional values, for lookups and steps that may not apply. */
module Wrappers {

  datatype Option<+T> = None | Some(value: T)
}
