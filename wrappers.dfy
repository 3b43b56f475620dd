/** Optional values, used for a dependency's unresolved parent and for lookups that may fail. */
module Wrappers {

  datatype Option<+T> = None | Some(value: T)
}
