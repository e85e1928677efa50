/** Optional values, standing for a field that may hold `null`. */
module Wrappers {

  datatype Option<+T> = None | Some(value: T)
}
