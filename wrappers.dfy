/** The optional value used wherever the source has `None`, NaN or a caught exception. */
module Wrappers {
  datatype Option<+T> = None | Some(value: T)
}
