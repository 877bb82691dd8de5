/** Optional values and fallible results, used wherever the scripts either find
    nothing or raise an exception. */
module Wrappers {

  datatype Option<T> = None | Some(value: T)

  datatype Result<T, E> = Ok(value: T) | Err(error: E)
}
