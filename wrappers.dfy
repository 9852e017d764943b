/** The Option type used for "may be undefined" results. */
module Wrappers {
  datatype Option<+T> = None | Some(value: T)
}
