/** The optional value used wherever the script receives `None` or a value. */
module Wrappers {
  datatype Option<+T> = None | Some(value: T)
}
