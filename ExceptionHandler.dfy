/**
 * The controller advice that turns an exception into an HTTP response whose
 * body is an `ApiError`. The body's timestamp (a clock read) is left out.
 */
module ExceptionHandler {
  import opened Wrappers
  import opened JavaText
  import opened Exceptions

  const BAD_REQUEST: string := "Bad Request"
  const NOT_FOUND: string := "NOT_FOUND"
  const NULL_POINTER: string := "Null pointer encountered"
  const EXCEPTION: string := "An error occurred"
  const DELIMITER: string := ": "

  const HTTP_BAD_REQUEST: int := 400
  const HTTP_NOT_FOUND: int := 404
  const HTTP_INTERNAL_SERVER_ERROR: int := 500

  /** The JSON error body: status code, error label, message. */
  datatype ApiError = ApiError(status: int, error: string, message: Option<string>)

  /** The response: a body and the HTTP status it is sent with. */
  datatype ResponseEntity = ResponseEntity(body: ApiError, status: int)

  /** A body carrying `status`, sent with that same status. */
  function Respond(status: int, errorLabel: string, message: Option<string>): (r: ResponseEntity)
    ensures r.body.status == r.status == status
    ensures r.body.error == errorLabel && r.body.message == message
  {
    ResponseEntity(ApiError(status, errorLabel, message), status)
  }

  /**
   * The message of a validation failure: "field: defaultMessage" of the first
   * field error, or the exception's own message when there is none.
   */
  function ValidationMessage(fieldErrors: seq<FieldError>, exceptionMessage: string): (m: string)
    ensures |fieldErrors| == 0 ==> m == exceptionMessage
    ensures |fieldErrors| > 0 ==>
      m == fieldErrors[0].field + DELIMITER + NullableToString(fieldErrors[0].defaultMessage)
  {
    if |fieldErrors| == 0 then exceptionMessage
    else
      var first := fieldErrors[0];
      first.field + DELIMITER + NullableToString(first.defaultMessage)
  }

  /**
   * The handler Spring selects for `e` (the most specific `@ExceptionHandler`),
   * applied to it.
   */
  function Handle(e: Exception): (r: ResponseEntity)
    ensures r.body.status == r.status
    ensures r.status == HTTP_NOT_FOUND <==> e.UserNotFound?
    ensures r.status == HTTP_INTERNAL_SERVER_ERROR <==> e.NullPointer? || e.Other?
    ensures r.status == HTTP_BAD_REQUEST <==>
      e.UserEmptyFields? || e.UserAge? || e.UserBirthdate? || e.MethodArgumentNotValid?
    ensures !e.MethodArgumentNotValid? ==> r.body.message == e.GetMessage()
  {
    match e
    case UserNotFound(msg) => Respond(HTTP_NOT_FOUND, NOT_FOUND, Some(msg))
    case UserEmptyFields(msg) => Respond(HTTP_BAD_REQUEST, BAD_REQUEST, Some(msg))
    case UserAge(msg) => Respond(HTTP_BAD_REQUEST, BAD_REQUEST, Some(msg))
    case UserBirthdate(msg) => Respond(HTTP_BAD_REQUEST, BAD_REQUEST, Some(msg))
    case MethodArgumentNotValid(errors, msg) =>
      Respond(HTTP_BAD_REQUEST, BAD_REQUEST, Some(ValidationMessage(errors, msg)))
    case NullPointer(d) => Respond(HTTP_INTERNAL_SERVER_ERROR, NULL_POINTER, d)
    case Other(d) => Respond(HTTP_INTERNAL_SERVER_ERROR, EXCEPTION, d)
  }

  /** A missing user is reported as 404 "NOT_FOUND" with the exception's message. */
  lemma NotFoundResponse(msg: string)
    ensures Handle(UserNotFound(msg)) == ResponseEntity(ApiError(404, "NOT_FOUND", Some(msg)), 404)
  {
  }

  /** The three user-input exceptions all become 400 "Bad Request" with their message. */
  lemma BadRequestResponses(msg: string)
    ensures Handle(UserEmptyFields(msg)) == ResponseEntity(ApiError(400, "Bad Request", Some(msg)), 400)
    ensures Handle(UserAge(msg)) == ResponseEntity(ApiError(400, "Bad Request", Some(msg)), 400)
    ensures Handle(UserBirthdate(msg)) == ResponseEntity(ApiError(400, "Bad Request", Some(msg)), 400)
  {
  }

  /**
   * A validation failure is a 400 "Bad Request" whose message names the
   * first failing field, or falls back to the exception message.
   */
  lemma ValidationResponse(errors: seq<FieldError>, msg: string)
    ensures Handle(MethodArgumentNotValid(errors, msg)).status == 400
    ensures Handle(MethodArgumentNotValid(errors, msg)).body.error == "Bad Request"
    ensures errors == [] ==> Handle(MethodArgumentNotValid(errors, msg)).body.message == Some(msg)
    ensures errors != [] ==>
      Handle(MethodArgumentNotValid(errors, msg)).body.message
        == Some(errors[0].field + ": " + NullableToString(errors[0].defaultMessage))
  {
  }

  /** Runtime failures are 500s, labelled by whether they were null-pointer errors. */
  lemma ServerErrorResponses(detail: Option<string>)
    ensures Handle(NullPointer(detail)) == ResponseEntity(ApiError(500, "Null pointer encountered", detail), 500)
    ensures Handle(Other(detail)) == ResponseEntity(ApiError(500, "An error occurred", detail), 500)
  {
  }

  /** Whatever the service throws is a client error (4xx), never a 500. */
  lemma ServiceExceptionsAreClientErrors(e: Exception)
    requires IsServiceException(e)
    ensures 400 <= Handle(e).status < 500
    ensures Handle(e).body.message == Some(e.message)
  {
  }
}
