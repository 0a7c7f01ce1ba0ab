/** Optional values: the model's stand-in for the source's `T | null`. */
module Wrappers {
  datatype Option<+T> = None | Some(value: T)
}
