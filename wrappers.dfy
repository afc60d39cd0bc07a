/** The usual optional-value datatype: a stored name or table entry that may be missing. */
module Wrappers {

  datatype Option<+T> = None | Some(value: T)
}
