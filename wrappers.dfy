/** Option, Result and the error conditions the routing table reports. */
module Wrappers {

  datatype Option<+T> = None | Some(value: T)

  /** The errors of the routing table: a malformed identifier pair, an exact-match search that
      exhausted every partition, and a reply channel closed without a value. */
  datatype Error = InvalidID | NotFound | Failed

  datatype Result<+T> = Ok(value: T) | Err(error: Error)
}
