/** The two result shapes the release tooling needs: a value that may be missing, and a value
    or the message of the `ValueError` that stopped the computation. */
module Wrappers {

  datatype Option<+T> = None | Some(value: T)

  datatype Result<+T> = Ok(value: T) | Err(error: string)
}
