/** The two wrappers the model uses: Option for JavaScript values that may be
    undefined, Result for calls that either return or throw (or reject). */
module Results {

  datatype Option<+T> = None | Some(value: T)

  datatype Result<+T, +E> = Ok(value: T) | Err(error: E)
}
