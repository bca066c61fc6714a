/** The exceptions the lambdas let escape, and the wrappers that carry them. */
module Outcomes {

  /** LookupError: no free block of the requested size; ZeroDivisionError: a usage percentage of an empty set. */
  datatype Error = LookupError | ZeroDivisionError

  datatype Result<T> = Ok(value: T) | Err(error: Error)

  datatype Option<T> = None | Some(value: T)
}
