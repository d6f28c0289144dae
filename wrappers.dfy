/** The optional value used where the model has something that may be absent. */
module Wrappers {

  datatype Option<+T> = None | Some(value: T)
}
