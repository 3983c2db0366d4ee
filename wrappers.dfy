/** Optional values: `None` stands for JavaScript's `undefined` (a missing
    array slot) and, for numbers, for `NaN`. */
module Wrappers {

  datatype Option<+T> = None | Some(value: T)

}
