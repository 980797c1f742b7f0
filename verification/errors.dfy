/**
 The failures the services throw, each with the HTTP status the service
 attaches to it, and the Express error handler that turns a thrown error
 into the client-visible response.
 */
module Errors {
  import opened Wrappers

  /** A schema path whose validator rejected a write. */
  datatype Field = Name | Country | Webpages

  /** Why an operation failed. Message texts are left out; the numbers a
      message reports are kept. */
  datatype Cause =
    | PageTooSmall
    | LimitOutOfRange
    | InvalidDate
    | InvalidPattern                // `new RegExp` threw a SyntaxError
    | PageOutOfRange(page: int, totalPages: int)
    | InvalidId
    | NotFound
    | Invalid(fields: set<Field>)   // a Mongoose ValidationError on these paths
    | DuplicateKey                  // a unique-index violation, MongoDB code 11000
    | UsernameTaken
    | InvalidCredentials
    | NoToken
    | BadTokenFormat
    | TokenRejected

  /** A thrown error whose `statusCode` the service has set. */
  datatype ServiceError = ServiceError(status: int, cause: Cause)

  /** An error as the error handler receives it: `statusCode` may be unset. */
  datatype Thrown = Thrown(statusCode: Option<int>, message: string)

  datatype Body = Body(success: bool, error: string)

  datatype Response = Response(status: int, body: Body)

  const InternalMessage: string := "Internal server error"

  /** `err.statusCode || 500`: an unset or zero status code falls back to 500. */
  function StatusOf(err: Thrown): (status: int)
    ensures status != 0
    ensures err.statusCode.Some? && err.statusCode.value != 0 ==> status == err.statusCode.value
    ensures err.statusCode.None? || err.statusCode.value == 0 ==> status == 500
  {
    match err.statusCode
    case Some(code) => if code != 0 then code else 500
    case None => 500
  }

  /** The error handler: the status is the error's own when it has one, the
      message is hidden exactly when the status is 500, and the body always
      reports failure. */
  function ErrorHandler(err: Thrown): (r: Response)
    ensures !r.body.success
    ensures r.status == StatusOf(err)
    ensures r.status == 500 ==> r.body.error == InternalMessage
    ensures r.status != 500 ==> r.body.error == err.message
    ensures r.body.error != err.message ==> r.status == 500
  {
    var status := StatusOf(err);
    Response(status, Body(false, if status == 500 then InternalMessage else err.message))
  }

  /** An error tagged 500 explicitly is hidden like one with no status at all. */
  lemma ExplicitInternalIsHidden(message: string)
    ensures ErrorHandler(Thrown(Some(500), message)) == ErrorHandler(Thrown(None, message))
    ensures ErrorHandler(Thrown(Some(0), message)) == ErrorHandler(Thrown(None, message))
  {
  }
}
