/** Optional values, standing in for the C code's nullable pointers. */
module Wrappers {

  datatype Option<+T> = None | Some(value: T)
}
