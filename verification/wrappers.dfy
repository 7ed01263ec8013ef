/** The optional value used wherever the program returns `None` for "absent". */
module Wrappers {
  datatype Option<+T> = None | Some(value: T)
}
