/** Option and Result values standing in for the exceptions the keygen and
    the patcher raise (KeyError, ValueError, RuntimeError). */
module Results {

  datatype Option<+T> = None | Some(value: T)

  datatype Result<+T, +E> = Success(value: T) | Failure(error: E)
}
