/** Optional values and results with an error side, used for missing cells
    and for the failure of the CSV export. */
module Wrappers {

  datatype Option<+T> = None | Some(value: T)

  datatype Result<+R, +E> = Success(value: R) | Failure(error: E)
}
