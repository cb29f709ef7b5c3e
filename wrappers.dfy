/** Optional values and results with an error, as the handlers use them:
    `None` stands for Python's None, `Err` for a raised HTTPException. */
module Wrappers {

  datatype Option<+T> = None | Some(value: T)

  datatype Result<+T, +E> = Ok(value: T) | Err(error: E)
}
