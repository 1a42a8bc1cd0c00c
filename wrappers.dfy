/** Option and Result, plus the error taxonomy that the route handlers raise. */
module Wrappers {

  datatype Option<+T> = None | Some(value: T)

  datatype Result<+T, +E> = Ok(value: T) | Err(error: E)

  /** Why an unhandled exception ended a request with HTTP 500. */
  datatype Fault =
    | UniqueViolation      // a second row with an existing unique key
    | ForeignKeyViolation  // a row referencing a missing parent
    | NegativeOffset       // PostgreSQL refuses a negative OFFSET
    | NegativeLimit        // PostgreSQL refuses a negative LIMIT
    | ClaimValidation      // pydantic refuses the token's user_id outside the JWTError handler

  /** The HTTP errors of the API, one variant per distinct response. */
  datatype Error =
    | NotFound                // 404: missing post, user or vote
    | Forbidden               // 403 "You are not the owner of the post"
    | Conflict                // 409: the caller already voted on the post
    | InvalidCredentials      // 403 "Invalid credentials" from /login
    | Unauthorized            // 401 "Could not validate credentials"
    | Unprocessable           // 422: the request body fails its schema
    | ServerError(cause: Fault)  // 500: an exception nobody catches
}
