/** Optional values and results with an error, used where the generator
    either skips a record (None) or aborts the run (Err). */
module Outcomes {

  datatype Option<T> = None | Some(value: T)

  datatype Result<T, E> = Ok(value: T) | Err(error: E)
}
