/** The optional value used for "found / not found" and for JavaScript's `NaN` and `null`. */
module Wrappers {

  datatype Option<+T> = None | Some(value: T)
}
