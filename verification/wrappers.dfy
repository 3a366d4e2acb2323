/** Optional values, for the places where the program returns `None`. */
module Wrappers {

  datatype Option<+T> = None | Some(value: T)
}
