/** Optional values: a reference that may be null in the analyzed code. */
module Wrappers {

  datatype Option<+T> = None | Some(value: T)
}
