/** Optional values and tagged outcomes shared by the catalog model. */
module Results {

  /** A value that may be absent: Python's `None` or a present value. */
  datatype Option<+T> = None | Some(value: T)

  /** Either the value an operation produced or the error tag it reported. */
  datatype Result<+R, +E> = Success(value: R) | Failure(error: E)

}
