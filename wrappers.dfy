/** The optional value used for Python's `None` and for a parse that may fail. */
module Wrappers {

  datatype Option<+T> = None | Some(value: T)
}
