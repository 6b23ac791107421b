/** The optional value used for absent configuration and for searches that miss. */
module Wrappers {

  datatype Option<+T> = None | Some(value: T)
}
