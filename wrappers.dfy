/** Python's `None`-or-value, used for validator results and for `int()`. */
module Wrappers {

  datatype Option<+T> = None | Some(value: T)
}
