/** Option datatype for values that may be absent (a cancelled dialog, a failed decode, ...). */
module Wrappers {
  datatype Option<+T> = None | Some(value: T)
}
