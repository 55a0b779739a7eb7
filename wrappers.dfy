/** Optional values: `None` plays the part of a C `NULL` result. */
module Wrappers {

  datatype Option<+T> = None | Some(value: T)
}
