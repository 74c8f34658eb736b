/** Missing values and error returns.
    A pandas missing value (NaN, NaT, an empty cell) is `None`; an exception
    the source raises is a `Failure`. */
module Wrappers {

  datatype Option<+T> = None | Some(value: T)

  datatype Result<+T, +E> = Success(value: T) | Failure(error: E)
}
