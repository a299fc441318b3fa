/** Optional values, standing in for nullable pointers and std::optional. */
module Wrappers {
  datatype Option<+T> = None | Some(value: T)
}
