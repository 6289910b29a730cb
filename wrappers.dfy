/** Optional values: `None` stands for JavaScript's `undefined` where a
    position or an element may be missing. */
module Wrappers {

  datatype Option<+T> = None | Some(value: T)
}
