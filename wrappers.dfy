/** The optional-value datatype shared by the scanning functions. */
module Wrappers {

  datatype Option<+T> = None | Some(value: T)
}
