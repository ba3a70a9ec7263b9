/** Optional values: the model's stand-in for JavaScript's `null`/`undefined`. */
module Wrappers {
  datatype Option<+T> = None | Some(value: T)
}
