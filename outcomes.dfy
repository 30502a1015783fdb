/** Optional values and the HTTP-level outcome of a request handled by the backend. */
module Outcomes {

  /** An absent or present value: a missing dictionary key, a nullable reference. */
  datatype Option<+T> = None | Some(value: T) {
    function GetOr(default: T): T {
      match this
      case Some(v) => v
      case None => default
    }
  }

  /** How a request ends: 200/201, 400 with a message, 404, 403, or an uncaught exception (500). */
  datatype Outcome = Ok | BadRequest(message: string) | NotFound | Forbidden | ServerError(message: string)
}
