/** Optional values: the model's stand-in for a Python call that either returns or raises. */
module Wrappers {
  datatype Option<+T> = None | Some(value: T)
}
