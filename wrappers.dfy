/** Optional values: the model's stand-in for Java's `Optional` and for nullable references. */
module Wrappers {
  datatype Option<+T> = None | Some(value: T)
}
