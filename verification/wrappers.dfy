/** Failure-carrying datatypes shared by the model of the research-assistant backend. */
module Wrappers {

  /** A value that may be absent (Python's None, JavaScript's undefined/null). */
  datatype Option<+T> = None | Some(value: T) {
    function GetOr(default: T): T {
      match this
      case Some(v) => v
      case None => default
    }
  }

  /** Either a value or the error an endpoint raised instead. */
  datatype Result<+T, +E> = Ok(value: T) | Err(error: E)

  /** A FastAPI `HTTPException`: status code and detail text. */
  datatype HttpError = HttpError(status: int, detail: string)

  const BadRequest := 400
  const Unauthorized := 401
  const NotFound := 404
  const InternalServerError := 500
  const BadGateway := 502
}
