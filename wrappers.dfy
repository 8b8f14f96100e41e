/** The optional value used wherever the source has a missing value (None, NaN or NaT). */
module Wrappers {
  datatype Option<+T> = None | Some(value: T)
}
