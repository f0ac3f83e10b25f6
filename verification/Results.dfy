/** Optional values, and outcomes that carry one of the library's errors. */
module Results {

  datatype Option<+T> = None | Some(value: T)

  datatype Error = AlreadyExists | NotFound | CursorOutOfBounds | Codec | Unexpected

  datatype Result<+T> = Ok(value: T) | Err(error: Error)
}
