/** The optional value used for every error or "no result" path of the model. */
module Wrappers {

  datatype Option<+T> = None | Some(value: T)
}
