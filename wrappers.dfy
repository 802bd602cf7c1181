/** Optional values, used where the tracker returns `None`. */
module Wrappers {

  datatype Option<+T> = None | Some(value: T)
}
