/** The optional value used for results that have no meaning in the model. */
module Wrappers {

  datatype Option<+T> = None | Some(value: T)
}
