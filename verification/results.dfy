/** Optional values and success/failure results, used where the server
    answers "nothing" or raises an error. */
module Results {

  datatype Option<+T> = None | Some(value: T)

  datatype Result<+T, +E> = Ok(value: T) | Err(error: E)
}
