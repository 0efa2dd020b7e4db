/** The optional-value datatype used for the parse and validation results. */
module Wrappers {

  datatype Option<+T> = None | Some(value: T)
}
