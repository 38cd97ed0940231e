/** Optional values and error-or-value results, used where the source has
    `undefined` fields and early-return error paths. */
module Results {

  datatype Option<+T> = None | Some(value: T)

  datatype Result<+T, +E> = Ok(value: T) | Err(error: E)
}
