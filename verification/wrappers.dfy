/** Optional values: the model's stand-in for a nullable C pointer. */
module Wrappers {

  /** `None` plays the part of a NULL pointer, `Some(v)` of a pointer to `v`. */
  datatype Option<+T> = None | Some(value: T)
}
