/** The optional value used for "no match", "missing entry" and "failed
    call" throughout the model. */
module Wrappers {
  datatype Option<+T> = None | Some(value: T)
}
