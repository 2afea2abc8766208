/** The Option type used for Python's raised exceptions and pandas' missing values. */
module Wrappers {

  datatype Option<+T> = None | Some(value: T)
}
