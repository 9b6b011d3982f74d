/** Optional values and fallible results, standing for Rust `Option`/`Result` and JavaScript `undefined`/exceptions. */
module Results {

  datatype Option<T> = None | Some(value: T)

  datatype Result<T, E> = Ok(value: T) | Err(error: E)
}
