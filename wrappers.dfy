/** The optional value shared by every module of the model: a lookup or
    decode step either yields a value or fails. */
module Wrappers {

  datatype Option<+T> = None | Some(value: T)
}
