/** Optional values, used for scans that may run off either end of the program. */
module Wrappers {

  datatype Option<+T> = None | Some(value: T)
}
