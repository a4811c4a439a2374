/** The optional value used wherever the modelled program may produce nothing. */
module Wrappers {
  datatype Option<+T> = None | Some(value: T)
}
