/** Optional values: `None` stands for what the JavaScript code represents by
    `undefined`, a missing field, or `NaN` after a division by zero. */
module Wrappers {

  datatype Option<+T> = None | Some(value: T)
}
