/** Optional values, results, and the failures the service's handlers end with. */
module Outcomes {

  datatype Option<+T> = None | Some(value: T)

  /** A failure as the web framework reports it to the client. */
  datatype Error =
    | HttpError(status: int, detail: string)  // an HTTPException raised by a handler
    | NotAuthenticated                        // the login manager's custom exception, raised with 401
    | InvalidCredentials                      // the login library's "Invalid credentials" exception (401)
    | ValidationFailed                        // a request rejected by field validation before the handler runs
    | Unhandled                               // an exception that nothing maps, answered as a server error
  {
    /** The HTTP status code the client receives. */
    function Status(): int
    {
      match this
      case HttpError(status, _) => status
      case NotAuthenticated => 401
      case InvalidCredentials => 401
      case ValidationFailed => 422
      case Unhandled => 500
    }
  }

  datatype Result<+T> = Ok(value: T) | Err(error: Error)
}
