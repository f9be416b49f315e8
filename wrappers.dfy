/** The optional-value datatype used by the resizer's specification. */
module Wrappers {

  datatype Option<+T> = None | Some(value: T)
}
