/** Plain option and result types, for the "missing" values and the Python
    exceptions the colouring scripts run into. */
module Wrappers {

  datatype Option<+T> = None | Some(value: T)

  datatype Result<+R, +E> = Success(value: R) | Failure(error: E)
}
