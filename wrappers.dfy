/** The optional-value datatype used where the source accepts `None`. */
module Wrappers {

  datatype Option<+T> = None | Some(value: T)
}
