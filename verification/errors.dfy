/**
 * The API's error taxonomy (`ApiError`), its display messages, and the HTTP
 * status and machine-readable code each error is answered with.
 */
module Errors {
  import opened Wrappers

  /** An HTTP status code; the HTTP library admits the three-digit range. */
  newtype StatusCode = x: int | 100 <= x <= 999 witness 500

  // Status codes, with the section of RFC 9110 (or RFC 6585) that defines them.
  const BAD_REQUEST: StatusCode := 400            // RFC 9110, section 15.5.1
  const UNAUTHORIZED: StatusCode := 401           // RFC 9110, section 15.5.2
  const FORBIDDEN: StatusCode := 403              // RFC 9110, section 15.5.4
  const NOT_FOUND: StatusCode := 404              // RFC 9110, section 15.5.5
  const CONFLICT: StatusCode := 409               // RFC 9110, section 15.5.10
  const TOO_MANY_REQUESTS: StatusCode := 429      // RFC 6585, section 4
  const INTERNAL_SERVER_ERROR: StatusCode := 500  // RFC 9110, section 15.6.1

  /**
   * The thirteen API errors.  `Internal` and `Database` wrap an error raised by
   * another library; only that error's own description is kept here.
   */
  datatype ApiError =
    | InvalidCredentials
    | UserNotFound
    | EventNotFound
    | InvalidInput(detail: string)
    | RateLimited
    | AlreadyVerified
    | InvalidSignature
    | OutsideTimeWindow
    | OutsideLocation
    | Unauthorized
    | Forbidden
    | Internal(cause: string)
    | Database(cause: string)

  /** Position of the variant in the declaration, ignoring any payload. */
  function Ordinal(e: ApiError): (k: nat)
    ensures k < 13
  {
    match e
    case InvalidCredentials => 0
    case UserNotFound => 1
    case EventNotFound => 2
    case InvalidInput(_) => 3
    case RateLimited => 4
    case AlreadyVerified => 5
    case InvalidSignature => 6
    case OutsideTimeWindow => 7
    case OutsideLocation => 8
    case Unauthorized => 9
    case Forbidden => 10
    case Internal(_) => 11
    case Database(_) => 12
  }

  /** Server-side failures, as opposed to rejections of the client's request. */
  predicate IsServerFault(e: ApiError) {
    e.Internal? || e.Database?
  }

  /** The status and code `into_response` pairs with each variant. */
  function StatusAndCode(e: ApiError): (r: (StatusCode, string))
    ensures r.0 == INTERNAL_SERVER_ERROR <==> IsServerFault(e)
    ensures !IsServerFault(e) ==> 400 <= r.0 < 500
  {
    match e
    case InvalidCredentials => (UNAUTHORIZED, "INVALID_CREDENTIALS")
    case UserNotFound => (NOT_FOUND, "USER_NOT_FOUND")
    case EventNotFound => (NOT_FOUND, "EVENT_NOT_FOUND")
    case InvalidInput(_) => (BAD_REQUEST, "INVALID_INPUT")
    case RateLimited => (TOO_MANY_REQUESTS, "RATE_LIMITED")
    case AlreadyVerified => (CONFLICT, "ALREADY_VERIFIED")
    case InvalidSignature => (BAD_REQUEST, "INVALID_SIGNATURE")
    case OutsideTimeWindow => (BAD_REQUEST, "OUTSIDE_TIME_WINDOW")
    case OutsideLocation => (BAD_REQUEST, "OUTSIDE_LOCATION")
    case Unauthorized => (UNAUTHORIZED, "UNAUTHORIZED")
    case Forbidden => (FORBIDDEN, "FORBIDDEN")
    case Internal(_) => (INTERNAL_SERVER_ERROR, "INTERNAL_ERROR")
    case Database(_) => (INTERNAL_SERVER_ERROR, "DATABASE_ERROR")
  }

  function Status(e: ApiError): StatusCode {
    StatusAndCode(e).0
  }

  function Code(e: ApiError): string {
    StatusAndCode(e).1
  }

  /** Reads a code string back to the variant it names, if any. */
  function ParseCode(code: string): (k: Option<nat>)
    ensures k.Some? ==> k.value < 13
  {
    if code == "INVALID_CREDENTIALS" then Some(0)
    else if code == "USER_NOT_FOUND" then Some(1)
    else if code == "EVENT_NOT_FOUND" then Some(2)
    else if code == "INVALID_INPUT" then Some(3)
    else if code == "RATE_LIMITED" then Some(4)
    else if code == "ALREADY_VERIFIED" then Some(5)
    else if code == "INVALID_SIGNATURE" then Some(6)
    else if code == "OUTSIDE_TIME_WINDOW" then Some(7)
    else if code == "OUTSIDE_LOCATION" then Some(8)
    else if code == "UNAUTHORIZED" then Some(9)
    else if code == "FORBIDDEN" then Some(10)
    else if code == "INTERNAL_ERROR" then Some(11)
    else if code == "DATABASE_ERROR" then Some(12)
    else None
  }

  /** Every variant's code reads back as that variant. */
  lemma CodeRoundTrip(e: ApiError)
    ensures ParseCode(Code(e)) == Some(Ordinal(e))
  {
  }

  /** Codes are one per variant: two errors share a code exactly when they are the same variant. */
  lemma CodesDistinct(a: ApiError, b: ApiError)
    ensures Code(a) == Code(b) <==> Ordinal(a) == Ordinal(b)
  {
    CodeRoundTrip(a);
    CodeRoundTrip(b);
    if Ordinal(a) == Ordinal(b) {
      assert a.InvalidInput? <==> b.InvalidInput?;
    }
  }

  /** The statuses of the client-side rejections: 429, 409, 403, 400 and 404. */
  lemma RejectionStatuses(detail: string)
    ensures Status(RateLimited) == 429 && Code(RateLimited) == "RATE_LIMITED"
    ensures Status(AlreadyVerified) == 409
    ensures Status(Forbidden) == 403
    ensures Status(InvalidInput(detail)) == Status(InvalidSignature) == 400
    ensures Status(OutsideTimeWindow) == Status(OutsideLocation) == 400
    ensures Status(EventNotFound) == Status(UserNotFound) == 404
  {
  }

  /** Bad credentials and a missing authentication share 401 but stay distinguishable by code. */
  lemma CredentialErrorsShareStatus()
    ensures Status(InvalidCredentials) == Status(Unauthorized) == UNAUTHORIZED
    ensures Code(InvalidCredentials) != Code(Unauthorized)
  {
  }

  /** The `Display` text of each error (`#[error(...)]`). */
  function Message(e: ApiError): (m: string)
    ensures e.InvalidInput? <==> InvalidInputDetail(m).Some?
    ensures IsServerFault(e) ==> m == (if e.Internal? then "Internal server error" else "Database error")
  {
    match e
    case InvalidCredentials => Unprefixed("Invalid credentials", 8)
    case UserNotFound => Unprefixed("User not found", 0)
    case EventNotFound => Unprefixed("Event not found", 0)
    case InvalidInput(d) =>
      var m := INVALID_INPUT_PREFIX + d;
      assert m[..|INVALID_INPUT_PREFIX|] == INVALID_INPUT_PREFIX;
      m
    case RateLimited => Unprefixed("Rate limited", 0)
    case AlreadyVerified => Unprefixed("Already verified", 0)
    case InvalidSignature => Unprefixed("Invalid signature", 8)
    case OutsideTimeWindow => Unprefixed("Outside time window", 0)
    case OutsideLocation => Unprefixed("Outside location", 0)
    case Unauthorized => Unprefixed("Unauthorized", 0)
    case Forbidden => Unprefixed("Forbidden", 0)
    case Internal(_) => Unprefixed("Internal server error", 2)
    case Database(_) => Unprefixed("Database error", 0)
  }

  /** A fixed message that departs from the `InvalidInput` prefix at position `k`. */
  function Unprefixed(m: string, k: nat): (r: string)
    requires k < |m| && k < |INVALID_INPUT_PREFIX| && m[k] != INVALID_INPUT_PREFIX[k]
    ensures r == m && InvalidInputDetail(r).None?
  {
    if |INVALID_INPUT_PREFIX| <= |m| then
      assert m[..|INVALID_INPUT_PREFIX|][k] == m[k];
      m
    else
      m
  }

  const INVALID_INPUT_PREFIX := "Invalid input: "

  /** Recovers the payload of an `InvalidInput` message. */
  function InvalidInputDetail(message: string): (d: Option<string>)
    ensures d.Some? ==> message == INVALID_INPUT_PREFIX + d.value
  {
    var n := |INVALID_INPUT_PREFIX|;
    if n <= |message| && message[..n] == INVALID_INPUT_PREFIX then Some(message[n..]) else None
  }

  /** The `InvalidInput` message is the fixed prefix followed by the payload, which reads back intact. */
  lemma InvalidInputMessageRoundTrip(detail: string)
    ensures InvalidInputDetail(Message(InvalidInput(detail))) == Some(detail)
  {
    var m := Message(InvalidInput(detail));
    assert m[..|INVALID_INPUT_PREFIX|] == INVALID_INPUT_PREFIX;
    assert m[|INVALID_INPUT_PREFIX|..] == detail;
  }

  /** JSON body of an error response. */
  datatype ErrorResponse = ErrorResponse(error: string, code: string)

  datatype Response = Response(status: StatusCode, body: ErrorResponse)

  /** `into_response`: the status, the code, and the display text as the body's `error`. */
  function IntoResponse(e: ApiError): (r: Response)
    ensures ParseCode(r.body.code) == Some(Ordinal(e))
    ensures r.status == INTERNAL_SERVER_ERROR <==> IsServerFault(e)
    ensures e.InvalidInput? ==> InvalidInputDetail(r.body.error) == Some(e.detail)
  {
    CodeRoundTrip(e);
    var (status, code) := StatusAndCode(e);
    Response(status, ErrorResponse(Message(e), code))
  }

  /** A server fault's response never depends on the wrapped error, so nothing of it leaks. */
  lemma ServerFaultHidesCause(x: string, y: string)
    ensures IntoResponse(Internal(x)) == IntoResponse(Internal(y))
    ensures IntoResponse(Database(x)) == IntoResponse(Database(y))
    ensures IntoResponse(Internal(x)).body.error == "Internal server error"
    ensures IntoResponse(Database(x)).body.error == "Database error"
  {
    assert IntoResponse(Internal(x)) == Response(INTERNAL_SERVER_ERROR, ErrorResponse("Internal server error", "INTERNAL_ERROR"));
    assert IntoResponse(Internal(y)) == Response(INTERNAL_SERVER_ERROR, ErrorResponse("Internal server error", "INTERNAL_ERROR"));
    assert IntoResponse(Database(x)) == Response(INTERNAL_SERVER_ERROR, ErrorResponse("Database error", "DATABASE_ERROR"));
    assert IntoResponse(Database(y)) == Response(INTERNAL_SERVER_ERROR, ErrorResponse("Database error", "DATABASE_ERROR"));
  }

  /** The response status of an `InvalidInput` error does not depend on its payload. */
  lemma InvalidInputStatusIgnoresDetail(x: string, y: string)
    ensures IntoResponse(InvalidInput(x)).status == IntoResponse(InvalidInput(y)).status == BAD_REQUEST
    ensures IntoResponse(InvalidInput(x)).body.code == IntoResponse(InvalidInput(y)).body.code
  {
  }
}
