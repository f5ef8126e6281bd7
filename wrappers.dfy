/** The optional value used wherever the script returns `null` or leaves a key out. */
module Wrappers {
  datatype Option<+T> = None | Some(value: T)
}
