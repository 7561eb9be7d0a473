/** Optional values and results with an error, as the chat bot's Java code
    expresses them with null and with exceptions. */
module Wrappers {

  datatype Option<+T> = None | Some(value: T)

  datatype Result<+T, +E> = Ok(value: T) | Err(error: E)
}
