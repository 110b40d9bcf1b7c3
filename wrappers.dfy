/** The "(zero value, false)" results of the Go API become None here. */
module Wrappers {
  datatype Option<+T> = None | Some(value: T)
}
