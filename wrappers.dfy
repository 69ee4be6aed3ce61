/** The optional value used wherever the program may fail softly. */
module Wrappers {
  datatype Option<+T> = None | Some(value: T)
}
