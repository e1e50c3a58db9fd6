/** Python's `None`-or-value, used for optional column specs and expiry timestamps. */
module Wrappers {

  datatype Option<+T> = None | Some(value: T)
}
