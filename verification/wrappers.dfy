/** Optional values, standing in for Python's `X | None`. */
module Wrappers {

  datatype Option<+T> = None | Some(value: T)
}
