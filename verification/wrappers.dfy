/** The optional-value datatype used across the model. */
module Wrappers {

  /** Either no value or exactly one. */
  datatype Option<+T> = None | Some(value: T)
}
