/**
 * `HttpExceptionFilter`: turns whatever was thrown into the JSON error
 * body the API returns. Logging, the timestamp and the response write are
 * not modelled; the function gives the body, whose `statusCode` is also
 * the HTTP status sent.
 */
module ExceptionFilter {
  import opened JsValues
  import opened Exceptions

  const InternalServerError := 500
  const DefaultMessage := "Internal server error"

  /** `exception.getResponse()`: a string or an object. */
  datatype ExceptionResponse = TextResponse(text: string) | ObjectResponse(fields: map<string, Value>)

  /** What reaches the filter. */
  datatype Thrown =
    | HttpException(status: int, response: ExceptionResponse)   // `exception instanceof HttpException`
    | PlainError(message: string)                                // any other `Error`
    | NotAnError(value: Value)                                   // a thrown non-Error value

  datatype ErrorBody = ErrorBody(statusCode: int, message: Value, errors: Value, path: string)

  /** `HttpExceptionFilter.catch(exception, host)` for a request whose URL is `url`. */
  function Catch(exception: Thrown, url: string): (b: ErrorBody)
    ensures b.path == url
    ensures exception.HttpException? ==> b.statusCode == exception.status
    ensures !exception.HttpException? ==> b.statusCode == InternalServerError
    ensures exception.NotAnError? ==> b.message == Str(DefaultMessage) && b.errors == Null
    ensures exception.PlainError? ==> b.message == Str(exception.message) && b.errors == Null
    ensures exception.HttpException? && exception.response.TextResponse? ==>
      b.message == Str(exception.response.text) && b.errors == Null
    ensures exception.HttpException? && exception.response.ObjectResponse? ==>
      && b.message == Or(Field(exception.response.fields, "message"), Str(DefaultMessage))
      && b.errors == Or(Field(exception.response.fields, "errors"), Null)
    // `errors` is null or a truthy value, never `undefined` or another falsy value.
    ensures b.errors == Null || Truthy(b.errors)
  {
    var status := InternalServerError;
    var message := Str(DefaultMessage);
    var errors := Null;
    match exception
    case HttpException(code, response) =>
      (match response
       case ObjectResponse(fields) =>
         ErrorBody(code, Or(Field(fields, "message"), message), Or(Field(fields, "errors"), Null), url)
       case TextResponse(text) =>
         ErrorBody(code, Str(text), errors, url))
    case PlainError(m) => ErrorBody(status, Str(m), errors, url)
    case NotAnError(_) => ErrorBody(status, message, errors, url)
  }

  /** The HTTP status of each exception the core throws. */
  function StatusOf(e: Exception): int
  {
    match e
    case NotFound(_) => 404
    case Forbidden(_) => 403
    case BadRequest(_) => 400
    case Upstream(_) => InternalServerError
  }

  /** The core's exceptions as they reach the filter: the framework's built-in
      HTTP exceptions carry `{ statusCode, message, error }`; a library error
      is a plain `Error`. */
  function ThrownOf(e: Exception): (t: Thrown)
    ensures e.Upstream? <==> t.PlainError?
    ensures e.Upstream? ==> t == PlainError(e.message)
    ensures !e.Upstream? ==> t.HttpException? && t.status == StatusOf(e) && t.response.ObjectResponse?
    ensures !e.Upstream? ==> Field(t.response.fields, "message") == Str(e.message) && "errors" !in t.response.fields
  {
    match e
    case NotFound(m) => HttpException(404, ObjectResponse(map["statusCode" := Num(404), "message" := Str(m), "error" := Str("Not Found")]))
    case Forbidden(m) => HttpException(403, ObjectResponse(map["statusCode" := Num(403), "message" := Str(m), "error" := Str("Forbidden")]))
    case BadRequest(m) => HttpException(400, ObjectResponse(map["statusCode" := Num(400), "message" := Str(m), "error" := Str("Bad Request")]))
    case Upstream(m) => PlainError(m)
  }

  /** Every exception of the core is rendered with its status, its own message and no errors. */
  lemma CoreExceptionRendering(e: Exception, url: string)
    requires e.message != ""
    ensures Catch(ThrownOf(e), url) == ErrorBody(StatusOf(e), Str(e.message), Null, url)
  {
  }

  /** An HTTP exception whose response object has no message is reported with its
      own status but the generic message. */
  lemma MessagelessObjectKeepsStatus(status: int, fields: map<string, Value>, url: string)
    requires "message" !in fields
    ensures Catch(HttpException(status, ObjectResponse(fields)), url).statusCode == status
    ensures Catch(HttpException(status, ObjectResponse(fields)), url).message == Str(DefaultMessage)
  {
  }
}
