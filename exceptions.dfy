/**
 * What the backend throws. The `AppException` family (bad request, not found,
 * unauthorized, forbidden, custom) are HTTP exceptions whose response body is
 * `{ message, errorCode, errors }`; the framework's own `UnauthorizedException`
 * has a body with a message and no error code; anything else (a database error,
 * a `TypeError`) reaches the exception filter as a plain `Error` or another value.
 */
module Exceptions {
  import opened Wrappers

  /** The object `HttpException.getResponse()` returns, or the bare string it was built with. */
  datatype ResponseBody =
    | BodyObject(message: Option<string>, errorCode: Option<string>, errors: Option<seq<string>>)
    | BodyString(text: string)

  datatype Exception =
    | HttpException(status: int, response: ResponseBody)
    | PlainError(message: string)
    | NonError

  type Outcome<T> = Result<T, Exception>

  /** `new BadRequestAppException(message, errors)`: the error code is always `BAD_REQUEST`. */
  function BadRequest(message: string, errors: seq<string>): (e: Exception)
    ensures e.HttpException? && e.status == 400
  {
    HttpException(400, BodyObject(Some(message), Some("BAD_REQUEST"), Some(errors)))
  }

  /** `new NotFoundAppException(message, errorCode)` */
  function NotFound(message: string, errorCode: string): (e: Exception)
    ensures e.HttpException? && e.status == 404
  {
    HttpException(404, BodyObject(Some(message), Some(errorCode), None))
  }

  /** `new UnauthorizedAppException(message, errorCode)` */
  function Unauthorized(message: string, errorCode: string): (e: Exception)
    ensures e.HttpException? && e.status == 401
  {
    HttpException(401, BodyObject(Some(message), Some(errorCode), None))
  }

  /** The framework's `new UnauthorizedException(message)`: a body without an error code. */
  function FrameworkUnauthorized(message: string): (e: Exception)
    ensures e.HttpException? && e.status == 401
  {
    HttpException(401, BodyObject(Some(message), None, None))
  }

  /**
   * The machine-readable reason of an application exception: the error code, or,
   * for a bad request (whose code is always `BAD_REQUEST`), the first entry of `errors`.
   */
  function Reason(e: Exception): Option<string> {
    match e
    case HttpException(_, BodyObject(_, Some("BAD_REQUEST"), Some(errs))) =>
      if |errs| > 0 then Some(errs[0]) else Some("BAD_REQUEST")
    case HttpException(_, BodyObject(_, code, _)) => code
    case _ => None
  }

  /** An application exception that reports `reason`. */
  predicate Raises<T>(r: Outcome<T>, reason: string) {
    r.Err? && Reason(r.error) == Some(reason)
  }

  /** A database error (unique key violated, record to update or delete missing). */
  const DatabaseError: Exception := PlainError("database request failed")
}
