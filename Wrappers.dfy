/** Optional values and results with an error, used for the optional fields of a
    catalog record and for the exceptions the command throws. */
module Wrappers {

  datatype Option<+T> = None | Some(value: T)

  datatype Result<+T, +E> = Success(value: T) | Failure(error: E)
}
