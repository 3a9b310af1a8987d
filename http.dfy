/** What a route handler answers: a payload, or an HTTPException with its
    status code and detail. */
module Http {

  datatype Response<T> = Ok(value: T) | Err(status: int, detail: string)

  /** The body `{"status": status, <key>: id}` of a delete or approve. */
  datatype StatusBody = StatusBody(status: string, key: string, id: int)

  /** FastAPI's answer to an exception the handler does not catch. */
  const INTERNAL_SERVER_ERROR := "Internal Server Error"
}
