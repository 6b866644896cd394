/** Optional values and success-or-error values, the two shapes in which the
    relay's C code reports "nothing here" and "startup refused". */
module Results {

  datatype Option<+T> = None | Some(value: T)

  datatype Result<+T, +E> = Success(value: T) | Failure(error: E)
}
