/** An optional value, for inputs that may fail to parse and actions that may not happen. */
module Wrappers {
  datatype Option<+T> = None | Some(value: T)
}
