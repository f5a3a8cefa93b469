/** The two login forms of the browser: the email pattern
    `^[^\s@]+@[^\s@]+\.[^\s@]+$`, the form check both forms share, clearing a
    field's error as it is typed in, and the message each form shows for the
    outcome of a login request. */
module Login {
  import opened Common
  import opened Text

  // ---------------------------------------------------------------------------
  // The email pattern

  /** The characters the pattern's `\s` matches: the ECMAScript WhiteSpace
      and LineTerminator characters. */
  predicate IsPatternSpace(c: char)
  {
    c == '\t' || c == '\n' || c == '\U{000B}' || c == '\U{000C}' || c == '\r' || c == ' '
    || c == '\U{00A0}' || c == '\U{1680}' || ('\U{2000}' <= c <= '\U{200A}')
    || c == '\U{2028}' || c == '\U{2029}' || c == '\U{202F}' || c == '\U{205F}'
    || c == '\U{3000}' || c == '\U{FEFF}'
  }

  /** One character of `[^\s@]`. */
  predicate Plain(c: char)
  {
    !IsPatternSpace(c) && c != '@'
  }

  /** A run `[^\s@]+`. */
  predicate PlainRun(s: string)
  {
    |s| > 0 && forall i :: 0 <= i < |s| ==> Plain(s[i])
  }

  /** The pattern matches `s` with its `@` at `at` and its `\.` at `dot`: the
      three runs are `s[..at]`, `s[at+1..dot]` and `s[dot+1..]`. */
  predicate SplitsAt(s: string, at: int, dot: int)
  {
    0 <= at < dot < |s| && s[at] == '@' && s[dot] == '.'
    && PlainRun(s[..at]) && PlainRun(s[at + 1..dot]) && PlainRun(s[dot + 1..])
  }

  /** What the pattern accepts, stated as the regular expression reads. */
  ghost predicate EmailShaped(s: string)
  {
    exists at, dot :: SplitsAt(s, at, dot)
  }

  predicate NoPatternSpace(s: string)
  {
    forall i :: 0 <= i < |s| ==> !IsPatternSpace(s[i])
  }

  /** The domain part holds a dot with a character on either side. */
  predicate InnerDot(r: string)
  {
    |r| >= 3 && '.' in r[1..|r| - 1]
  }

  /** `emailRegex.test(s)`, decided by one look at the `@` and one at a dot. */
  function MatchesEmail(s: string): bool
  {
    NoPatternSpace(s) && '@' in s
    && var at := IndexOf(s, '@'); at > 0 && '@' !in s[at + 1..] && InnerDot(s[at + 1..])
  }

  /** The decision agrees with the pattern on every string. */
  lemma MatchesEmailIff(s: string)
    ensures MatchesEmail(s) <==> EmailShaped(s)
  {
    if MatchesEmail(s) {
      DecisionIsShaped(s);
    }
    if EmailShaped(s) {
      var at, dot :| SplitsAt(s, at, dot);
      ShapedIsAccepted(s, at, dot);
    }
  }

  lemma DecisionIsShaped(s: string)
    requires MatchesEmail(s)
    ensures EmailShaped(s)
  {
    var at := IndexOf(s, '@');
    var r := s[at + 1..];
    var j :| 1 <= j < |r| - 1 && r[j] == '.';
    assert r[1..|r| - 1][j - 1] == '.';
    var dot := at + 1 + j;
    assert s[at + 1..dot] == r[..j] && s[dot + 1..] == r[j + 1..];
    assert SplitsAt(s, at, dot);
  }

  lemma ShapedIsAccepted(s: string, at: int, dot: int)
    requires SplitsAt(s, at, dot)
    ensures MatchesEmail(s)
  {
    assert forall i :: 0 <= i < |s| && i != at && i != dot ==> Plain(s[i]) by {
      forall i | 0 <= i < |s| && i != at && i != dot
        ensures Plain(s[i])
      {
        if i < at {
          assert s[..at][i] == s[i];
        } else if i < dot {
          assert s[at + 1..dot][i - at - 1] == s[i];
        } else {
          assert s[dot + 1..][i - dot - 1] == s[i];
        }
      }
    }
    assert '@' in s;
    assert '@' !in s[..at];
    assert IndexOf(s, '@') == at;
    var r := s[at + 1..];
    assert '@' !in r;
    assert r[dot - at - 1] == '.';
    assert r[1..|r| - 1][dot - at - 2] == '.';
  }

  /** Any three runs joined by `@` and `.` form an accepted address, and the
      middle run may itself hold dots. */
  lemma EmailOfParts(local: string, domain: string, top: string)
    requires PlainRun(local) && PlainRun(domain) && PlainRun(top)
    ensures MatchesEmail(local + "@" + domain + "." + top)
  {
    var s := local + "@" + domain + "." + top;
    var at, dot := |local|, |local| + 1 + |domain|;
    assert s[..at] == local && s[at + 1..dot] == domain && s[dot + 1..] == top;
    assert SplitsAt(s, at, dot);
    MatchesEmailIff(s);
  }

  /** A string without an `@`, or with a space, is refused. */
  lemma RefusedWithoutAtOrWithSpace(s: string, i: nat)
    requires i < |s| && (IsPatternSpace(s[i]) || '@' !in s)
    ensures !MatchesEmail(s)
  {
  }

  // ---------------------------------------------------------------------------
  // The form and its check

  datatype LoginFields = LoginFields(email: string, password: string)

  /** The errors object: a field is either absent or holds its message (which
      typing may blank to ""). */
  datatype FormErrors = FormErrors(email: Option<string>, password: Option<string>)

  const EMAIL_REQUIRED := "Email is required"
  const EMAIL_INVALID := "Please enter a valid email address"
  const PASSWORD_REQUIRED := "Password is required"
  const PASSWORD_SHORT := "Password must be at least 6 characters long"
  const MIN_PASSWORD_LENGTH := 6

  /** `validateForm`: fill the errors field by field; the form is valid iff
      no field was filled. The password's length is JavaScript's, in UTF-16
      code units. */
  method ValidateForm(form: LoginFields) returns (errors: FormErrors, valid: bool)
    ensures form.email == "" ==> errors.email == Some(EMAIL_REQUIRED)
    ensures form.email != "" && !EmailShaped(form.email) ==> errors.email == Some(EMAIL_INVALID)
    ensures form.email != "" && EmailShaped(form.email) ==> errors.email.None?
    ensures form.password == "" ==> errors.password == Some(PASSWORD_REQUIRED)
    ensures 0 < JsLength(form.password) < MIN_PASSWORD_LENGTH ==> errors.password == Some(PASSWORD_SHORT)
    ensures JsLength(form.password) >= MIN_PASSWORD_LENGTH ==> errors.password.None?
    ensures valid <==> errors.email.None? && errors.password.None?
    ensures valid <==> EmailShaped(form.email) && JsLength(form.password) >= MIN_PASSWORD_LENGTH
  {
    MatchesEmailIff(form.email);
    errors := FormErrors(None, None);
    if form.email == "" {
      errors := errors.(email := Some(EMAIL_REQUIRED));
    } else if !MatchesEmail(form.email) {
      errors := errors.(email := Some(EMAIL_INVALID));
    }
    if form.password == "" {
      errors := errors.(password := Some(PASSWORD_REQUIRED));
    } else if JsLength(form.password) < MIN_PASSWORD_LENGTH {
      errors := errors.(password := Some(PASSWORD_SHORT));
    }
    valid := errors.email.None? && errors.password.None?;
  }

  /** The length test counts code units: three characters beyond U+FFFF
      (such as emoji) are a password long enough, while five characters of
      the Basic Multilingual Plane are not. */
  lemma PasswordLengthInCodeUnits(p: string)
    ensures |p| == 3 && (forall i :: 0 <= i < |p| ==> p[i] as int > 0xFFFF) ==> JsLength(p) >= MIN_PASSWORD_LENGTH
    ensures |p| == 5 && (forall i :: 0 <= i < |p| ==> p[i] as int <= 0xFFFF) ==> JsLength(p) < MIN_PASSWORD_LENGTH
  {
    if |p| == 3 && (forall i :: 0 <= i < |p| ==> p[i] as int > 0xFFFF) {
      JsLengthOfAstral(p);
    }
    if |p| == 5 && (forall i :: 0 <= i < |p| ==> p[i] as int <= 0xFFFF) {
      JsLengthOfBmp(p);
    }
  }

  /** The two inputs, by their `name`. */
  datatype InputName = EmailInput | PasswordInput

  /** A JavaScript truthiness test of an optional message. */
  predicate Truthy(m: Option<string>)
  {
    m.Some? && m.value != ""
  }

  /** `handleInputChange`: the named field takes the typed value and, when
      that field shows an error, the error is blanked. */
  function InputChange(form: LoginFields, errors: FormErrors, name: InputName, value: string): (r: (LoginFields, FormErrors))
    ensures name == EmailInput ==> r.0.email == value && r.0.password == form.password
    ensures name == PasswordInput ==> r.0.password == value && r.0.email == form.email
    ensures name == EmailInput ==> r.1.password == errors.password
    ensures name == PasswordInput ==> r.1.email == errors.email
    ensures name == EmailInput ==> r.1.email == if Truthy(errors.email) then Some("") else errors.email
    ensures name == PasswordInput ==> r.1.password == if Truthy(errors.password) then Some("") else errors.password
  {
    match name
    case EmailInput =>
      (form.(email := value), if Truthy(errors.email) then errors.(email := Some("")) else errors)
    case PasswordInput =>
      (form.(password := value), if Truthy(errors.password) then errors.(password := Some("")) else errors)
  }

  /** After typing into a field, no error shows on it. */
  lemma InputChangeClears(form: LoginFields, errors: FormErrors, name: InputName, value: string)
    ensures var r := InputChange(form, errors, name, value);
      !Truthy(if name == EmailInput then r.1.email else r.1.password)
  {
  }

  // ---------------------------------------------------------------------------
  // The login page's message

  const LOGIN_OK := "Login successful!"
  const NETWORK_ERROR := "Network error. Please check your connection and try again."

  /** What `loginUser` resolves to, or that it threw. */
  datatype LoginOutcome =
    | Succeeded
    | Failed(code: string, message: string, traceId: Option<string>)
    | Threw(errorMessage: Option<string>)

  /** The message the page shows for a finished request. A throw first shows
      the error's own message and then at once the network message, so the
      network message is what remains. */
  function PageMessage(outcome: LoginOutcome): (m: string)
    ensures outcome.Succeeded? ==> m == LOGIN_OK
    ensures outcome.Threw? ==> m == NETWORK_ERROR
    ensures outcome.Failed? && outcome.code == "INVALID_CREDENTIALS" ==> m == "Email or password is incorrect."
    ensures outcome.Failed? && outcome.code == "VALIDATION_REQUIRED" ==> m == "Please fill in both email and password."
    ensures outcome.Failed? && outcome.code == "INTERNAL_ERROR" ==>
      m == "Something went wrong. Please try again." + (if outcome.traceId.Some? && outcome.traceId.value != ""
                                                         then " (Ref: " + outcome.traceId.value + ")" else "")
    ensures outcome.Failed? && outcome.code !in {"INVALID_CREDENTIALS", "VALIDATION_REQUIRED", "INTERNAL_ERROR"} ==>
      m == if outcome.message != "" then outcome.message else "Request failed."
    ensures m != ""
  {
    match outcome
    case Succeeded => LOGIN_OK
    case Threw(_) => NETWORK_ERROR
    case Failed(code, message, traceId) =>
      if code == "INVALID_CREDENTIALS" then "Email or password is incorrect."
      else if code == "VALIDATION_REQUIRED" then "Please fill in both email and password."
      else if code == "INTERNAL_ERROR" then
        "Something went wrong. Please try again."
        + (if traceId.Some? && traceId.value != "" then " (Ref: " + traceId.value + ")" else "")
      else if message != "" then message else "Request failed."
  }

  /** A reply to the login request: its status, whether its body has a truthy
      `ok`, and the body's `error` (code, message, trace id) when it has one. */
  datatype LoginReply = LoginReply(status: int, bodyOk: bool, error: Option<(string, string, Option<string>)>)

  /** What `loginUser` gives the page through the fetch wrapper: a status
      outside 200..299 throws an `Error`; otherwise the body is the response,
      and a body without `ok` and without `error` makes `response.error.code`
      throw a `TypeError`. */
  function WrapperOutcome(reply: LoginReply): (o: LoginOutcome)
    ensures !(200 <= reply.status < 300) ==> o.Threw? && o.errorMessage.Some?
    ensures o.Succeeded? <==> 200 <= reply.status < 300 && reply.bodyOk
    ensures o.Failed? <==> 200 <= reply.status < 300 && !reply.bodyOk && reply.error.Some?
  {
    if !(200 <= reply.status < 300) then Threw(Some("API error: " + IntToString(reply.status)))
    else if reply.bodyOk then Succeeded
    else match reply.error
      case None => Threw(Some("TypeError"))
      case Some(e) => Failed(e.0, e.1, e.2)
  }

  /** The login controller answers 400 or 401 on a failure and 200 with a body
      of `success` and `message` on a success; none of these bodies has `ok`
      or `error`. Through the wrapper the page then shows the network message
      for every one of them, and only a success outcome navigates. */
  lemma ControllerRepliesShowNetworkError(status: int)
    ensures PageMessage(WrapperOutcome(LoginReply(status, false, None))) == NETWORK_ERROR
    ensures !WrapperOutcome(LoginReply(status, false, None)).Succeeded?
  {
  }

  /** The page after a submit: its errors, its message, whether a request was
      sent and whether it moved on to the dashboard. */
  datatype PageState = PageState(errors: FormErrors, message: string, requested: bool, navigated: bool, loading: bool)

  /** `handleSubmit` on the login page, given what the request would return. */
  method SubmitPage(form: LoginFields, outcome: LoginOutcome) returns (s: PageState)
    ensures !(EmailShaped(form.email) && JsLength(form.password) >= MIN_PASSWORD_LENGTH) ==>
      !s.requested && s.message == "" && !s.navigated && (s.errors.email.Some? || s.errors.password.Some?)
    ensures EmailShaped(form.email) && JsLength(form.password) >= MIN_PASSWORD_LENGTH ==>
      s.requested && s.message == PageMessage(outcome) && s.errors == FormErrors(None, None)
    ensures s.navigated <==> s.requested && outcome.Succeeded?
    ensures !s.loading
  {
    var errors, valid := ValidateForm(form);
    s := PageState(errors, "", false, false, false);
    if !valid {
      return;
    }
    s := s.(loading := true, requested := true);
    s := s.(message := PageMessage(outcome), navigated := outcome.Succeeded?);
    s := s.(loading := false);
  }

  // ---------------------------------------------------------------------------
  // The login component's message

  /** What the component's own `fetch` gives: a response whose body did or did
      not parse as JSON, or a network failure. */
  datatype FetchOutcome =
    | Responded(ok: bool, body: Option<Option<string>>)
    | NetworkFailure

  /** The message for a finished request: a body that does not parse throws
      before `ok` is looked at, and lands in the network message. */
  function ComponentMessage(outcome: FetchOutcome): (m: string)
    ensures outcome.NetworkFailure? ==> m == NETWORK_ERROR
    ensures outcome.Responded? && outcome.body.None? ==> m == NETWORK_ERROR
    ensures outcome.Responded? && outcome.body.Some? && outcome.ok ==> m == LOGIN_OK
    ensures outcome.Responded? && outcome.body.Some? && !outcome.ok ==>
      m == if Truthy(outcome.body.value) then outcome.body.value.value else "Login failed. Please try again."
    ensures m != ""
  {
    match outcome
    case NetworkFailure => NETWORK_ERROR
    case Responded(ok, body) =>
      if body.None? then NETWORK_ERROR
      else if ok then LOGIN_OK
      else if Truthy(body.value) then body.value.value
      else "Login failed. Please try again."
  }

  /** `handleSubmit` of the component: the shared check, then the request. */
  method SubmitComponent(form: LoginFields, outcome: FetchOutcome) returns (errors: FormErrors, message: string, requested: bool)
    ensures requested <==> EmailShaped(form.email) && JsLength(form.password) >= MIN_PASSWORD_LENGTH
    ensures !requested ==> message == "" && (errors.email.Some? || errors.password.Some?)
    ensures requested ==> message == ComponentMessage(outcome) && message != ""
  {
    var valid;
    errors, valid := ValidateForm(form);
    message := "";
    requested := false;
    if valid {
      requested := true;
      message := ComponentMessage(outcome);
    }
  }
}
