/** Optional values and results, used for the points where the program aborts
    (an `unwrap` on `None` or `Err`, a `panic!`, a `process::exit`). */
module Wrappers {

  datatype Option<+T> = None | Some(value: T)

  datatype Result<+T, +E> = Ok(value: T) | Err(error: E)
}
