/** C++ exceptions as values. */
module Results {

  datatype Exception = RangeException | InvalidArgumentException | RuntimeError

  datatype Result<+T> = Ok(value: T) | Thrown(exception: Exception)

  datatype Option<+T> = None | Some(value: T)
}
