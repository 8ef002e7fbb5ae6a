/** The optional value returned by the field validators: None for "no message". */
module Wrappers {
  datatype Option<+T> = None | Some(value: T)
}
