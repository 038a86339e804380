/** Option and Result, used wherever the source returns None or raises. */
module Wrappers {

  datatype Option<+T> = None | Some(value: T) {
    /** The value, or `default` when absent (Python's `dict.get(key, default)`). */
    function GetOr(default: T): T {
      match this
      case Some(v) => v
      case None => default
    }
  }

  datatype Result<+R, +E> = Success(value: R) | Failure(error: E)
}

/** An HTTP error response raised by a FastAPI route (`HTTPException`). */
module Http {

  datatype HttpError = HttpError(statusCode: nat, detail: string)

  const NotFound: nat := 404
  const BadRequest: nat := 400
  const ServerError: nat := 500
}
