/** Optional values and the two Python exceptions the clustering core can raise. */
module Outcomes {

  datatype Option<T> = None | Some(value: T)

  /** `IndexError`: a cluster key that cannot index the overlap matrix.
      `ValueError`: `max` taken over an empty overlap matrix. */
  datatype Error = IndexError | ValueError

  datatype Result<T> = Ok(value: T) | Err(error: Error)
}
