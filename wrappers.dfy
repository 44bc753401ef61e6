/** Optional values: `None` stands for JavaScript's NaN where a number is parsed. */
module Wrappers {

  datatype Option<+T> = None | Some(value: T)
}
