/** The absence value returned by the lookups (Python's `None`). */
module Wrappers {

  datatype Option<+T> = None | Some(value: T)
}
