/** Optional values, used for "not found" and "nothing was uploaded". */
module Wrappers {
  datatype Option<+T> = None | Some(value: T)
}
