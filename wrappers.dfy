/** The optional value of the C++ `optional<T>` used throughout the Qingping component. */
module Wrappers {
  datatype Option<+T> = None | Some(value: T)
}
