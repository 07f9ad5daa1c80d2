/** The optional value used for absent inputs and for "no call was made". */
module Wrappers {
  datatype Option<+T> = None | Some(value: T)
}
