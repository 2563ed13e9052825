/**
  The server's error middleware: the custom error classes, the mapping from
  an error's name to an HTTP status and a client-facing text, and the
  handler for unknown API paths.
 */
module ErrorHandler {
  import opened Common
  import opened Strings
  import opened SharedApi

  /** An `Error` object as far as the handler looks at it. */
  datatype Error = Error(name: string, message: string)

  const VALIDATION_ERROR := "ValidationError"
  const UNAUTHORIZED_ERROR := "UnauthorizedError"
  const FORBIDDEN_ERROR := "ForbiddenError"
  const NOT_FOUND_ERROR := "NotFoundError"

  /** `new ValidationError(message)`; an omitted message is empty. */
  function NewValidationError(message: string): (e: Error)
    ensures e.name == VALIDATION_ERROR && e.message == message
  {
    Error(VALIDATION_ERROR, message)
  }

  /** `new UnauthorizedError(message = 'Unauthorized')`. */
  function NewUnauthorizedError(message: Option<string>): (e: Error)
    ensures e.name == UNAUTHORIZED_ERROR
    ensures e.message == if message.Some? then message.value else "Unauthorized"
  {
    Error(UNAUTHORIZED_ERROR, if message.Some? then message.value else "Unauthorized")
  }

  /** `new ForbiddenError(message = 'Forbidden')`. */
  function NewForbiddenError(message: Option<string>): (e: Error)
    ensures e.name == FORBIDDEN_ERROR
    ensures e.message == if message.Some? then message.value else "Forbidden"
  {
    Error(FORBIDDEN_ERROR, if message.Some? then message.value else "Forbidden")
  }

  /** `new NotFoundError(message = 'Not found')`. */
  function NewNotFoundError(message: Option<string>): (e: Error)
    ensures e.name == NOT_FOUND_ERROR
    ensures e.message == if message.Some? then message.value else "Not found"
  {
    Error(NOT_FOUND_ERROR, if message.Some? then message.value else "Not found")
  }

  predicate IsKnownName(name: string)
  {
    name == VALIDATION_ERROR || name == UNAUTHORIZED_ERROR || name == FORBIDDEN_ERROR || name == NOT_FOUND_ERROR
  }

  /** The status code and the body the handler sends. */
  datatype Reply = Reply(status: nat, body: Response<()>)

  /** `errorHandler`: the status follows the error's name, 500 for any name
      it does not know; the text is the error's own message in development
      and for validation errors, and a fixed text otherwise. The text goes
      through `createResponse`, so an empty one is dropped. */
  function HandleError(err: Error, development: bool): (r: Reply)
    ensures r.status in {400, 401, 403, 404, 500}
    ensures r.status == 500 <==> !IsKnownName(err.name)
    ensures !r.body.success && r.body.data.None? && r.body.message.None?
    ensures (development || err.name == VALIDATION_ERROR) ==> r.body.error == KeepTruthy(Some(err.message))
  {
    var (status, text) :=
      if err.name == VALIDATION_ERROR then (400, err.message)
      else if err.name == UNAUTHORIZED_ERROR then (401, "Unauthorized")
      else if err.name == FORBIDDEN_ERROR then (403, "Forbidden")
      else if err.name == NOT_FOUND_ERROR then (404, "Not found")
      else (500, "Internal server error");
    Reply(status, CreateResponse(false, None, None, Some(if development then err.message else text)))
  }

  /** Each custom error class is answered with its own status code. */
  lemma CustomErrorsMapToTheirStatus(message: string, given: Option<string>, development: bool)
    ensures HandleError(NewValidationError(message), development).status == 400
    ensures HandleError(NewUnauthorizedError(given), development).status == 401
    ensures HandleError(NewForbiddenError(given), development).status == 403
    ensures HandleError(NewNotFoundError(given), development).status == 404
  {
    assert VALIDATION_ERROR[0] != UNAUTHORIZED_ERROR[0] && VALIDATION_ERROR[0] != FORBIDDEN_ERROR[0];
    assert VALIDATION_ERROR[0] != NOT_FOUND_ERROR[0] && UNAUTHORIZED_ERROR[0] != FORBIDDEN_ERROR[0];
    assert UNAUTHORIZED_ERROR[0] != NOT_FOUND_ERROR[0] && FORBIDDEN_ERROR[0] != NOT_FOUND_ERROR[0];
  }

  /** Outside development only a validation error's message reaches the
      client: for any other error the reply does not depend on the
      message. */
  lemma ProductionHidesMessage(err: Error, message: string)
    requires err.name != VALIDATION_ERROR
    ensures HandleError(err, false) == HandleError(err.(message := message), false)
  {
  }

  /** Outside development every error other than a validation error gets
      the fixed text of its status, whatever its message: an unknown name
      gets 500 and "Internal server error". */
  lemma ProductionTexts(err: Error)
    ensures err.name == UNAUTHORIZED_ERROR ==> HandleError(err, false).body.error == Some("Unauthorized")
    ensures err.name == FORBIDDEN_ERROR ==> HandleError(err, false).body.error == Some("Forbidden")
    ensures err.name == NOT_FOUND_ERROR ==> HandleError(err, false).body.error == Some("Not found")
    ensures !IsKnownName(err.name) ==>
      HandleError(err, false) == Reply(500, Response(false, None, None, Some("Internal server error")))
  {
    CustomErrorsMapToTheirStatus("", None, false);
  }

  /** The fixed texts are the class defaults, so an error raised with its
      default message reads the same in development and outside it. */
  lemma DefaultMessagesMatchProductionTexts(development: bool)
    ensures HandleError(NewUnauthorizedError(None), development).body.error == Some("Unauthorized")
    ensures HandleError(NewForbiddenError(None), development).body.error == Some("Forbidden")
    ensures HandleError(NewNotFoundError(None), development).body.error == Some("Not found")
  {
    CustomErrorsMapToTheirStatus("", None, development);
  }

  const NOT_FOUND_PREFIX := "API endpoint not found: "

  /** `notFoundHandler`: 404 naming the requested path. */
  function NotFoundHandler(url: string): (r: Reply)
    ensures r.status == 404
    ensures !r.body.success && r.body.data.None? && r.body.message.None?
    ensures r.body.error.Some? && StartsWith(r.body.error.value, NOT_FOUND_PREFIX)
    ensures r.body.error.value[|NOT_FOUND_PREFIX|..] == url
  {
    var text := NOT_FOUND_PREFIX + url;
    assert text[..|NOT_FOUND_PREFIX|] == NOT_FOUND_PREFIX;
    Reply(404, CreateResponse(false, None, None, Some(text)))
  }
}
