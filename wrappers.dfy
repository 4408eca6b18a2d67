/** Optional values, used for a node label that may be absent. */
module Wrappers {

  /** `None` stands for JavaScript's `undefined`. */
  datatype Option<+T> = None | Some(value: T)
}
