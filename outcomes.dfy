/** Option and Result values, used wherever the source returns nothing, skips an input
    or raises an exception. */
module Outcomes {

  datatype Option<T> = None | Some(value: T)

  datatype Result<T, E> = Ok(value: T) | Err(error: E)
}
