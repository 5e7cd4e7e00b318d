/** The optional value used for lookups that may miss. */
module Wrappers {

  /** `None` stands for Go's `(nil, false)` result, `Some(v)` for `(v, true)`. */
  datatype Option<+T> = None | Some(value: T)
}
