/** The optional value standing for Python's `Optional[...]` returns. */
module Wrappers {

  datatype Option<+T> = None | Some(value: T)
}
