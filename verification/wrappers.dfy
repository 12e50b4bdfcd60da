/** Python's `None`-or-value, as returned by `dict.get` and used for optional column indices. */
module Wrappers {

  datatype Option<+T> = None | Some(value: T)
}
