/** Optional values, for the places where the program uses `None` or an absent key. */
module Wrappers {

  datatype Option<+T> = None | Some(value: T)
}
