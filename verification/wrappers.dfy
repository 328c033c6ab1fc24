/** Python's `None`-or-value results, as used by the data-access layer. */
module Wrappers {

  /** Either no value (Python `None`) or a value. */
  datatype Option<+T> = None | Some(value: T)
}
