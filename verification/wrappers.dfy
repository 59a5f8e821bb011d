/** Python's `None`-or-value results, as used by the password search. */
module Wrappers {

  datatype Option<+T> = None | Some(value: T)
}
