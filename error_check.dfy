/**
 * The status classifier of src/error.rs: an exact match of the status text
 * against five HTTP error codes. A match ends the process; the model returns
 * that ending as a value instead.
 */
module ErrorCheck {
  import opened Base
  import Json

  /** The five fatal statuses the classifier knows. */
  datatype Cause =
    | InvalidApiKey
    | InsufficientPrivileges
    | ResourceNotFound
    | RateLimitExceeded
    | InternalServerError

  /** The HTTP status code that stands for each cause. */
  function Code(c: Cause): nat
  {
    match c
    case InvalidApiKey => 401
    case InsufficientPrivileges => 403
    case ResourceNotFound => 404
    case RateLimitExceeded => 429
    case InternalServerError => 500
  }

  /** The line the classifier prints to explain each cause. */
  function Message(c: Cause): string
  {
    match c
    case InvalidApiKey => "The API key is invalid"
    case InsufficientPrivileges => "The API key specified has insufficient privileges"
    case ResourceNotFound => "Resource not found"
    case RateLimitExceeded => "The rate limit has been exceeded"
    case InternalServerError => "Internal server error"
  }

  /** The numerals of the five codes, digit by digit. */
  lemma CodeNumerals()
    ensures Json.Digits(401) == "401" && Json.Digits(403) == "403" && Json.Digits(404) == "404"
    ensures Json.Digits(429) == "429" && Json.Digits(500) == "500"
  {
    assert Json.Digits(4) == "4" && Json.Digits(40) == "40";
    assert Json.Digits(2) == "2" && Json.Digits(42) == "42";
    assert Json.Digits(5) == "5" && Json.Digits(50) == "50";
  }

  /** A classified failure: what was printed, in order, and the exit code. */
  datatype Exit = Exit(cause: Cause, printed: seq<string>, code: int)

  /**
   * `validate_response(status, error)`: None when the process carries on;
   * otherwise how it ends. Matching is exact string equality on the status
   * text, so only the bare numerals of the five codes are fatal.
   */
  function ValidateResponse(status: string, error: string): (r: Option<Exit>)
    ensures r.Some? ==> status == Json.Digits(Code(r.value.cause))
    ensures r.None? ==> forall c: Cause :: status != Json.Digits(Code(c))
    ensures r.Some? ==> r.value.code == 1
    ensures r.Some? ==> r.value.printed == ["Error: " + error, Message(r.value.cause)]
  {
    CodeNumerals();
    var cause :=
      match status
      case "401" => Some(InvalidApiKey)
      case "403" => Some(InsufficientPrivileges)
      case "404" => Some(ResourceNotFound)
      case "429" => Some(RateLimitExceeded)
      case "500" => Some(InternalServerError)
      case _ => None;
    match cause
    case None => None
    case Some(c) => Some(Exit(c, ["Error: " + error, Message(c)], 1))
  }

  /**
   * Classifying a rendered JSON value: the process ends exactly when the
   * value is the number 401, 403, 404, 429 or 500, whatever the error text.
   * A string "401", null (a missing field) or any other value passes.
   */
  lemma ValidateRendered(v: Json.Json, error: string)
    ensures ValidateResponse(Json.Render(v), error).Some?
        <==> exists c: Cause :: v == Json.Num(Code(c))
    ensures ValidateResponse(Json.Render(v), error).Some?
        ==> v == Json.Num(Code(ValidateResponse(Json.Render(v), error).value.cause))
  {
    var r := ValidateResponse(Json.Render(v), error);
    if r.Some? {
      Json.RenderNumeral(v, Code(r.value.cause));
    }
  }
}
