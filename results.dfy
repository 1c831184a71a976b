/** Optional values and results with an error, shared by the other modules. */
module Results {

  datatype Option<+T> = None | Some(value: T)

  datatype Result<+T, +E> = Ok(value: T) | Err(error: E)
}
