/** Optional values: JavaScript's `undefined` where a lookup can miss, and
    `NaN` where an integer parse can fail. */
module Wrappers {

  datatype Option<+T> = None | Some(value: T)
}
