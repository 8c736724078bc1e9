/** The optional value used wherever the source reads a possibly missing entry. */
module Wrappers {
  datatype Option<+T> = None | Some(value: T)
}
