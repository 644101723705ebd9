/** Option type for results that may be absent (a failed fetch, a missing value). */
module Wrappers {
  datatype Option<+T> = None | Some(value: T)
}
