/** Optional values, standing in for the source's `null`/`undefined`/`None`. */
module Wrappers {

  datatype Option<+T> = None | Some(value: T)
}
