/** Outcome of an operation whose source version stops on a failed assertion. */
module Wrappers {
  datatype Option<T> = None | Some(value: T)
}
