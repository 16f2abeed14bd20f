/** HTTP statuses and the failures the service layer raises. */
module Errors {

  datatype Option<+T> = None | Some(value: T)

  /** The HTTP statuses the services and the response handler produce. */
  datatype HttpStatus = Ok | BadRequest | NotFound | Conflict
  {
    /** The numeric status code. */
    function Code(): int
    {
      match this
      case Ok => 200
      case BadRequest => 400
      case NotFound => 404
      case Conflict => 409
    }
  }

  /** HttpStatus.resolve: the status carrying a numeric code, if there is one. */
  function Resolve(code: int): (r: Option<HttpStatus>)
    ensures r.Some? ==> r.value.Code() == code
    ensures r.None? ==> code !in {200, 400, 404, 409}
  {
    if code == 200 then Some(Ok)
    else if code == 400 then Some(BadRequest)
    else if code == 404 then Some(NotFound)
    else if code == 409 then Some(Conflict)
    else None
  }

  /** Resolving a status's own code gives the status back. */
  lemma ResolveCode(s: HttpStatus)
    ensures Resolve(s.Code()) == Some(s)
  {
  }

  /** What a service call throws. */
  datatype ServiceError =
    /** ResponseStatusException: a status and a reason for the client. */
    | StatusError(status: HttpStatus, reason: string)
    /** DataIntegrityViolationException from the store, left untranslated. */
    | IntegrityViolation

  /** The outcome of a service call: a value, or what it throws. */
  datatype Result<+T> = Success(value: T) | Failure(error: ServiceError)
}
