/** Optional values, for the PHP `null` the runner may see. */
module Wrappers {

  datatype Option<+T> = None | Some(value: T)
}
