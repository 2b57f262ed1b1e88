/** A value that may be missing: a null cell of a data frame, an absent column,
    or a "no data" result. */
module Wrappers {
  datatype Option<+T> = None | Some(value: T)
}
