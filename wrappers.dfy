/** Failure-carrying values: the `None` / `False` / exception returns of the repository
    and the validation errors of the entity are modelled with these two datatypes. */
module Wrappers {

  datatype Option<+T> = None | Some(value: T)

  datatype Result<+T, +E> = Ok(value: T) | Err(error: E)
}
