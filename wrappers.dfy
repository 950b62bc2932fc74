/** The optional value used for nullable references and nullable date-picker values. */
module Wrappers {
  datatype Option<+T> = None | Some(value: T)
}
