/** Optional values and error-carrying results, standing for Rust's
    `Option` and `Result`. */
module Util {

  datatype Option<T> = None | Some(value: T)

  datatype Result<T, E> = Ok(value: T) | Err(error: E)
}
