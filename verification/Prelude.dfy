/** Result and option types shared by the models. */
module Prelude {

  /** A value that may be missing: Python's None, a missing JSON field, a SQL NULL. */
  datatype Option<+T> = None | Some(value: T)

  /** A call that either returns or raises. */
  datatype Result<+T> = Ok(value: T) | Raised(error: string)
}
