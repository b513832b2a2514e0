/** Option, used for values that may be absent and for operations that may throw. */
module Wrappers {

  datatype Option<+T> = None | Some(value: T)
}
