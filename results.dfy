/** Optional values and the success/error shape every route of the store answers with. */
module Results {

  /** A value that may be absent (Python's `None`, or a JSON key that was not sent). */
  datatype Option<+T> = None | Some(value: T)

  /** A route's answer: `success: True` with a payload, or `success: False` with an error string. */
  datatype Result<+T> = Ok(value: T) | Err(error: string)
}
