/**
 * The global exception filter: every exception that leaves a handler becomes a
 * reply whose HTTP status and body are a `CustomResponse` with null data.
 */
module ExceptionFilters {
  import opened Wrappers
  import opened Exceptions
  import opened Responses

  /** What the filter sends: `response.status(status).json(body)`. */
  datatype Reply = Reply(status: int, body: CustomResponse<()>)

  const RequestFailed := "Request failed"
  const UnknownError := "Unknown error"
  const InternalServerError := "INTERNAL_SERVER_ERROR"

  /** `res.message || 'Request failed'`: a missing or empty message falls back. */
  function MessageOrDefault(message: Option<string>): (m: string)
    ensures m == (if message.Some? && message.value != "" then message.value else RequestFailed)
  {
    match message
    case Some(text) => if text != "" then text else RequestFailed
    case None => RequestFailed
  }

  /**
   * `GlobalExceptionFilter.catch`. An HTTP exception keeps its status, its
   * message (or `Request failed`), its error code and its errors; a bare string
   * body has none of these fields. An `Error` becomes a 500 with its own message
   * and `INTERNAL_SERVER_ERROR`; any other thrown value a 500 with `Unknown error`.
   */
  function Catch(e: Exception): (r: Reply)
    ensures r.status == r.body.status && r.body.data == Null
    ensures r.body.success <==> r.status < 400
    ensures e.HttpException? ==> r.status == e.status
    ensures e.HttpException? && e.response.BodyObject? ==>
              && r.body.message == Some(MessageOrDefault(e.response.message))
              && r.body.errorCode == e.response.errorCode
              && r.body.errors == e.response.errors
    ensures e.HttpException? && e.response.BodyString? ==>
              r.body.message == Some(RequestFailed) && r.body.errorCode == None && r.body.errors == None
    ensures e.PlainError? ==>
              r == Reply(500, CustomResponse(false, Some(e.message), Null, 500, Some(InternalServerError), None))
    ensures e.NonError? ==>
              r == Reply(500, CustomResponse(false, Some(UnknownError), Null, 500, Some(InternalServerError), None))
  {
    match e
    case HttpException(status, BodyObject(message, errorCode, errors)) =>
      Reply(status, MakeCustomResponse(Some(MessageOrDefault(message)), Null, Some(status), errorCode, errors))
    case HttpException(status, BodyString(_)) =>
      Reply(status, MakeCustomResponse(Some(RequestFailed), Null, Some(status), None, None))
    case PlainError(message) =>
      Reply(500, MakeCustomResponse(Some(message), Null, Some(500), Some(InternalServerError), None))
    case NonError =>
      Reply(500, MakeCustomResponse(Some(UnknownError), Null, Some(500), Some(InternalServerError), None))
  }

  /** The reason a client reads back from a reply body, as `Reason` reads it from an exception. */
  function ReplyReason(body: CustomResponse<()>): (r: Option<string>)
    ensures body.errorCode != Some("BAD_REQUEST") ==> r == body.errorCode
  {
    match (body.errorCode, body.errors)
    case (Some("BAD_REQUEST"), Some(errs)) =>
      if |errs| > 0 then Some(errs[0]) else Some("BAD_REQUEST")
    case _ => body.errorCode
  }

  /** The reason an application exception reports reaches the client unchanged. */
  lemma {:induction false} ReasonSurvivesFilter(e: Exception)
    requires e.HttpException? && e.response.BodyObject?
    ensures ReplyReason(Catch(e).body) == Reason(e)
  {
    var b := Catch(e).body;
    assert b.errorCode == e.response.errorCode && b.errors == e.response.errors;
  }

  /** Every exception the application raises is reported as a failure. */
  lemma ErrorStatusMeansFailure(e: Exception)
    requires e.HttpException? ==> e.status >= 400
    ensures !Catch(e).body.success
  {
  }

  /** `BadRequestAppException(message, errors)` reaches the client as a 400 with its message and errors. */
  lemma BadRequestReply(message: string, errors: seq<string>)
    requires message != ""
    ensures Catch(BadRequest(message, errors)) ==
              Reply(400, CustomResponse(false, Some(message), Null, 400, Some("BAD_REQUEST"), Some(errors)))
  {
  }

  /** The framework's `UnauthorizedException` reaches the client with its message and no error code. */
  lemma FrameworkUnauthorizedReply(message: string)
    requires message != ""
    ensures Catch(FrameworkUnauthorized(message)) ==
              Reply(401, CustomResponse(false, Some(message), Null, 401, None, None))
  {
  }
}
