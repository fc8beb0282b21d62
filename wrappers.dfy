/** Option and Result values used for the lookups and for the two places
    where the button handler raises instead of producing a reply. */
module Wrappers {

  datatype Option<+T> = None | Some(value: T)

  datatype Result<+R, +E> = Ok(value: R) | Err(error: E)
}
