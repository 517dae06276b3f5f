/** Optional values and results with an error, as returned by the lookups of the map. */
module Wrappers {

  datatype Option<+T> = None | Some(value: T)

  datatype Result<+R, +E> = Success(value: R) | Failure(error: E)

  /** The one error the map reports: `at` on a key that is not stored (std::out_of_range). */
  datatype LookupError = OutOfRange
}
