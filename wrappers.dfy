/** The optional value used for fallible operations of the model. */
module Wrappers {

  datatype Option<+T> = None | Some(value: T)
}
