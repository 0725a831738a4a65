/** Python's `None`-or-value, used for optional inputs and results. */
module Wrappers {
  datatype Option<+T> = None | Some(value: T)
}
