/** Optional values, used for the places where the program may have nothing to return. */
module Wrappers {
  datatype Option<+T> = None | Some(value: T)
}
