/** Optional values: `Some(x)` for a present value, `None` for JavaScript's `null`. */
module Wrappers {

  datatype Option<+T> = None | Some(value: T)
}
