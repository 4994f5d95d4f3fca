/** The optional-value datatype used where the source uses `null` or "not found". */
module Wrappers {

  datatype Option<+T> = None | Some(value: T)
}
