/** Option and Result, the two wrappers the model uses for a missing value
    (a null thread_ts cell) and for an operation that can fail (a CSV file
    without a header row). */
module Wrappers {

  datatype Option<+T> = None | Some(value: T)

  datatype Result<+R, +E> = Success(value: R) | Failure(error: E)
}
