// Optional values, used where the source returns undefined or NaN.

module Wrappers {

  datatype Option<T> = None | Some(value: T)
}
