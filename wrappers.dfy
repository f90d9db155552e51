/** Optional values: a Java reference that may be null, an Optional, or a missing row or cell. */
module Wrappers {

  datatype Option<+T> = None | Some(value: T)
}
