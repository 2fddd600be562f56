/** The optional value returned by the store's best-effort collaborators (a
    metadata parse that may fail), and the value-or-error result of a lookup. */
module Wrappers {

  datatype Option<+T> = None | Some(value: T)

  datatype Result<+T, +E> = Ok(value: T) | Err(error: E)
}
