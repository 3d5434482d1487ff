/** The Option type used for Python's `None` and for the infinite-distance sentinel. */
module Wrappers {
  datatype Option<+T> = None | Some(value: T)
}
