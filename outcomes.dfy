/** Optional values, results and the failures a sorted-map operation can raise. */
module Outcomes {

  /** A value that may be absent; replaces the source's `missing` sentinel and `undefined` returns. */
  datatype Option<T> = None | Some(value: T)

  /** The normal return of an operation, or the error it throws. */
  datatype Result<T, E> = Ok(value: T) | Err(error: E)

  /** The two exceptions the sorted map can raise. */
  datatype Failure =
    /** The comparator answered something that is not a number (`isNaN`). */
    | InvalidComparatorResult
    /** An exact lookup read the first entry of a bucket that does not exist. */
    | MissingBucket
}
