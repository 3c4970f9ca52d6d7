/** Optional values, used for Python's `None` and for partial library calls. */
module Wrappers {

  datatype Option<+T> = None | Some(value: T)
}
