/** Option and Result wrappers: the error paths of the model are values, not preconditions. */
module Results {

  datatype Option<+T> = None | Some(value: T)

  datatype Result<+T, +E> = Success(value: T) | Failure(error: E)
}
