/** Failure-compatible wrappers used in place of the scripts' exceptions and `None` returns. */
module Results {

  datatype Option<T> = None | Some(value: T)

  datatype Result<T, E> = Success(value: T) | Failure(error: E)
}
