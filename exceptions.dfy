/**
 * Python's two ways out of a function: returning a value or raising. The
 * exceptions are those the modelled code raises or lets through.
 */
module Exceptions {
  import opened Responses

  datatype Exception =
    /** FastAPI's `HTTPException(status_code, detail, headers)`. */
    | HTTPException(status: nat, detail: ErrorDetail, headers: map<string, string>)
    /** FastAPI rejects the request's parameters or body before the handler runs (422). */
    | RequestValidationError
    /** The handler's value does not fit the route's response model (500). */
    | ResponseValidationError
    /** A pydantic `ValidationError` raised inside the code and not caught (500). */
    | ValidationError

  /** What a call does: returns a value or raises an exception. */
  datatype Outcome<+T> = Return(value: T) | Raise(exception: Exception)

  /** A successful reply: the HTTP status and the body. */
  datatype Reply<+T> = Reply(status: nat, body: T)

  const HTTP_200_OK: nat := 200
  const HTTP_201_CREATED: nat := 201
  const HTTP_204_NO_CONTENT: nat := 204
  const HTTP_400_BAD_REQUEST: nat := 400
  const HTTP_401_UNAUTHORIZED: nat := 401
  const HTTP_403_FORBIDDEN: nat := 403
  const HTTP_404_NOT_FOUND: nat := 404
  const HTTP_422_UNPROCESSABLE_ENTITY: nat := 422
  const HTTP_500_INTERNAL_SERVER_ERROR: nat := 500

  /** The status the client sees for an exception that leaves a route. */
  function StatusOf(e: Exception): nat {
    match e
    case HTTPException(status, _, _) => status
    case RequestValidationError => HTTP_422_UNPROCESSABLE_ENTITY
    case _ => HTTP_500_INTERNAL_SERVER_ERROR
  }
}
