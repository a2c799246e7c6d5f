/** The optional value used for NaN cells, failed reprojections and Python
    exceptions that a caller catches. */
module Wrappers {
  datatype Option<+T> = None | Some(value: T)
}
