/** Optional values: an empty slot of the capture array, an absent registry
    entry. */
module Wrappers {
  datatype Option<T> = None | Some(value: T)
}
