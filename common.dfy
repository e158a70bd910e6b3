/** Identifiers, optional values and the error outcomes every controller can raise. */
module Common {

  /** A document id (Mongo's ObjectId), allocated in increasing order per collection. */
  type Id = nat

  datatype Option<+T> = None | Some(value: T)

  /** How a request fails. The first six are the `ApiError`s the controllers throw, with
      their HTTP status; `Unhandled` is any other exception (a duplicate-key write, an
      aggregation stage the database refuses, a property read on a missing document),
      whose status is decided by the error middleware, which is not part of this model. */
  datatype Error =
    | BadRequest
    | Unauthorized
    | Forbidden
    | NotFound
    | Conflict
    | ServerError
    | Unhandled

  /** The HTTP status an `ApiError` carries; `None` for an exception that is not one. */
  function Status(e: Error): (code: Option<nat>)
    ensures code.None? <==> e == Unhandled
  {
    match e
    case BadRequest => Some(400)
    case Unauthorized => Some(401)
    case Forbidden => Some(403)
    case NotFound => Some(404)
    case Conflict => Some(409)
    case ServerError => Some(500)
    case Unhandled => None
  }

  datatype Result<+T> = Ok(value: T) | Err(error: Error)
}
