/** The optional-value datatype shared by the modules of this model. */
module Opt {
  datatype Option<+T> = None | Some(value: T)
}
