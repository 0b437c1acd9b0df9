/** Failure-carrying values shared by the whole model.
    The relay only ever answers with two error statuses: 401 for a bad
    Authorization header and 500 for everything else (the handler's catch-all). */
module Results {

  /** An optional value: a missing JSON field, an empty query result. */
  datatype Option<+T> = None | Some(value: T)

  /** The HTTP error a handler raises, with its `detail` text. */
  datatype Error =
    | Unauthorized(detail: string)   // status 401
    | ServerError(detail: string)    // status 500

  /** Either the handler's JSON payload or the error it raised. */
  datatype Result<+T> = Ok(value: T) | Err(error: Error)
}
