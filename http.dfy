/** The API's error codes, their HTTP statuses (RFC 9110 section 15, and 429
    from RFC 6585 section 4) and the uniform JSON envelopes of replies. */
module Http {
  import opened Common

  datatype ApiErrorCode =
    | InvalidCredentials
    | ValidationFailed
    | SessionExpired
    | Forbidden
    | NotFound
    | RateLimited
    | BadRequest
    | InternalError
    | DatabaseError
    | InvalidQuery
    | Conflict

  /** The code as it travels in the `code` field. */
  function CodeName(c: ApiErrorCode): string
  {
    match c
    case InvalidCredentials => "INVALID_CREDENTIALS"
    case ValidationFailed => "VALIDATION_FAILED"
    case SessionExpired => "SESSION_EXPIRED"
    case Forbidden => "FORBIDDEN"
    case NotFound => "NOT_FOUND"
    case RateLimited => "RATE_LIMITED"
    case BadRequest => "BAD_REQUEST"
    case InternalError => "INTERNAL_ERROR"
    case DatabaseError => "DATABASE_ERROR"
    case InvalidQuery => "INVALID_QUERY"
    case Conflict => "CONFLICT"
  }

  /** `ApiErrorStatusMap`: the status of every code. */
  function Status(c: ApiErrorCode): (s: int)
    ensures 400 <= s <= 599
    ensures s >= 500 <==> c == InternalError || c == DatabaseError
    ensures s == 401 <==> c == InvalidCredentials || c == SessionExpired
    ensures s == 400 <==> c == ValidationFailed || c == BadRequest || c == InvalidQuery
  {
    match c
    case InvalidCredentials => 401
    case ValidationFailed => 400
    case SessionExpired => 401
    case Forbidden => 403
    case NotFound => 404
    case RateLimited => 429
    case BadRequest => 400
    case InternalError => 500
    case DatabaseError => 500
    case InvalidQuery => 400
    case Conflict => 409
  }

  /** Reading a code back from its name; a name outside the map gives `None`. */
  function CodeOfName(name: string): (r: Option<ApiErrorCode>)
    ensures r.Some? ==> CodeName(r.value) == name
  {
    if name == "INVALID_CREDENTIALS" then Some(InvalidCredentials)
    else if name == "VALIDATION_FAILED" then Some(ValidationFailed)
    else if name == "SESSION_EXPIRED" then Some(SessionExpired)
    else if name == "FORBIDDEN" then Some(Forbidden)
    else if name == "NOT_FOUND" then Some(NotFound)
    else if name == "RATE_LIMITED" then Some(RateLimited)
    else if name == "BAD_REQUEST" then Some(BadRequest)
    else if name == "INTERNAL_ERROR" then Some(InternalError)
    else if name == "DATABASE_ERROR" then Some(DatabaseError)
    else if name == "INVALID_QUERY" then Some(InvalidQuery)
    else if name == "CONFLICT" then Some(Conflict)
    else None
  }

  /** Every code's name reads back as that code: the names are distinct. */
  lemma CodeNameRoundTrip(c: ApiErrorCode)
    ensures CodeOfName(CodeName(c)) == Some(c)
  {
    var n := CodeName(c);
    if |n| == 14 {
      assert n[0] == 'I' <==> c == InternalError;
    } else if |n| == 9 {
      assert n[0] == 'F' <==> c == Forbidden;
    }
  }

  /** `ApiErrorStatusMap[code] ?? 500` for a code given by name. */
  function StatusOfName(name: string): (s: int)
    ensures 400 <= s <= 599
    ensures CodeOfName(name).None? ==> s == 500
    ensures CodeOfName(name).Some? ==> s == Status(CodeOfName(name).value)
  {
    match CodeOfName(name)
    case Some(c) => Status(c)
    case None => 500
  }

  /** The `details` that `sendUnexpected` attaches: the trace id and the error. */
  datatype Details = Trace(traceId: string, err: string)

  /** `data: body ?? {}`: the body given, or the empty object. */
  datatype Payload<D> = EmptyObject | Data(value: D)

  /** The JSON envelope of a reply. */
  datatype Envelope<D> =
    | FailBody(code: ApiErrorCode, message: string, details: Option<Details>)
    | OkBody(message: string, data: Payload<D>)
  {
    predicate Success() { OkBody? }
  }

  datatype Reply<D> = Reply(status: int, body: Envelope<D>)

  /** `sendFail`: `success: false` with the code's status. */
  function SendFail<D>(code: ApiErrorCode, message: string, details: Option<Details>): (r: Reply<D>)
    ensures !r.body.Success() && r.body.code == code && r.body.message == message && r.body.details == details
    ensures r.status == StatusOfName(CodeName(code))
  {
    CodeNameRoundTrip(code);
    Reply(Status(code), FailBody(code, message, details))
  }

  /** `sendOk`: `success: true`; the message defaults to "OK", the data to `{}`
      and the status to 200. */
  function SendOk<D>(body: Option<D>, message: Option<string>, status: Option<int>): (r: Reply<D>)
    ensures r.body.Success()
    ensures r.body.message == (if message.Some? then message.value else "OK")
    ensures r.status == (if status.Some? then status.value else 200)
    ensures body.None? <==> r.body.data == EmptyObject
    ensures body.Some? ==> r.body.data == Data(body.value)
  {
    var data := match body case Some(b) => Data(b) case None => EmptyObject;
    Reply(if status.Some? then status.value else 200,
          OkBody(if message.Some? then message.value else "OK", data))
  }

  /** `sendUnexpected`: an `INTERNAL_ERROR` failure carrying a trace id, which
      the caller supplies. */
  function SendUnexpected<D>(traceId: string, err: string): (r: Reply<D>)
    ensures r.status == 500
    ensures !r.body.Success() && r.body.code == InternalError
    ensures r.body.message == "Something went wrong"
    ensures r.body.details == Some(Trace(traceId, err))
  {
    SendFail(InternalError, "Something went wrong", Some(Trace(traceId, err)))
  }
}
