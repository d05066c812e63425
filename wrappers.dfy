/** The optional-value datatype used for the store's "absent" cases. */
module Wrappers {

  datatype Option<+T> = None | Some(value: T)
}
