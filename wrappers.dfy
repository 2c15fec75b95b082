/** The Option datatype used for "absent" results (a Go nil return). */
module Wrappers {
  datatype Option<+T> = None | Some(value: T)
}
