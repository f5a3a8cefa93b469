/** The field rules of the two user schemas: the one the server applies to a
    registration and the one the browser form applies to registration and
    update. The library's own email and date-parsing checks are predicates the
    caller supplies. */
module UserSchemas {
  import opened Common

  /** The fields of a user form, as the `path` of an issue names them. */
  datatype Field = Id | FirstName | LastName | Email | Role | TeamId | HireDate | MonthlySalary

  function FieldName(f: Field): string
  {
    match f
    case Id => "id"
    case FirstName => "firstName"
    case LastName => "lastName"
    case Email => "email"
    case Role => "role"
    case TeamId => "teamId"
    case HireDate => "hireDate"
    case MonthlySalary => "monthlySalary"
  }

  /** One schema issue: the field it is reported on and its message; `None`
      stands for the library's own default text. */
  datatype Issue = Issue(path: Field, message: Option<string>)

  /** The fields some issue is reported on. */
  function PathsOf(issues: seq<Issue>): set<Field>
  {
    if issues == [] then {} else {issues[0].path} + PathsOf(issues[1..])
  }

  /** Some issue is reported on this field. */
  predicate IssueOn(issues: seq<Issue>, path: Field)
  {
    path in PathsOf(issues)
  }

  lemma {:induction false} PathsOfAppend(a: seq<Issue>, b: seq<Issue>)
    ensures PathsOf(a + b) == PathsOf(a) + PathsOf(b)
    decreases |a|
  {
    if a == [] {
      assert a + b == b;
    } else {
      assert (a + b)[1..] == a[1..] + b;
      PathsOfAppend(a[1..], b);
    }
  }

  /** A field is in the set iff some issue names it. */
  lemma {:induction false} PathsOfIff(issues: seq<Issue>, p: Field)
    ensures p in PathsOf(issues) <==> exists i :: 0 <= i < |issues| && issues[i].path == p
    decreases |issues|
  {
    if issues != [] {
      PathsOfIff(issues[1..], p);
      if p in PathsOf(issues[1..]) {
        var i :| 0 <= i < |issues[1..]| && issues[1..][i].path == p;
        assert issues[i + 1].path == p;
      }
      if exists i :: 0 <= i < |issues| && issues[i].path == p {
        var i :| 0 <= i < |issues| && issues[i].path == p;
        if i > 0 {
          assert issues[1..][i - 1].path == p;
        }
      }
    }
  }

  /** The fields in the order of the schema's shape. */
  const FIELDS: seq<Field> := [Id, FirstName, LastName, Email, Role, TeamId, HireDate, MonthlySalary]

  lemma AllFieldsListed(f: Field)
    ensures f in FIELDS
  {
  }

  /** The issue of one rule: none when it holds. */
  function Check(ok: bool, path: Field, message: Option<string>): (r: seq<Issue>)
    ensures ok <==> r == []
    ensures PathsOf(r) == if ok then {} else {path}
  {
    if ok then [] else [Issue(path, message)]
  }

  /** Every field's rule checked in turn, the issues in field order; parsing
      reports all failing fields, not only the first. */
  function FieldIssues(fields: seq<Field>, holds: Field -> bool, message: Field -> Option<string>): (issues: seq<Issue>)
    ensures |issues| <= |fields|
  {
    if fields == [] then []
    else Check(holds(fields[0]), fields[0], message(fields[0])) + FieldIssues(fields[1..], holds, message)
  }

  /** A field has an issue iff it is listed and its rule fails; no issue at all
      iff every listed rule holds. */
  lemma {:induction false} FieldIssuesIff(fields: seq<Field>, holds: Field -> bool, message: Field -> Option<string>)
    ensures forall p :: p in PathsOf(FieldIssues(fields, holds, message)) <==> p in fields && !holds(p)
    ensures FieldIssues(fields, holds, message) == [] <==> forall p :: p in fields ==> holds(p)
    decreases |fields|
  {
    if fields != [] {
      FieldIssuesIff(fields[1..], holds, message);
      PathsOfAppend(Check(holds(fields[0]), fields[0], message(fields[0])), FieldIssues(fields[1..], holds, message));
      assert forall p :: p in fields <==> p == fields[0] || p in fields[1..];
    }
  }

  /** Over all the fields: an issue exactly on the fields whose rule fails. */
  lemma AllFieldIssues(holds: Field -> bool, message: Field -> Option<string>)
    ensures forall p :: IssueOn(FieldIssues(FIELDS, holds, message), p) <==> !holds(p)
    ensures FieldIssues(FIELDS, holds, message) == [] <==> forall p :: holds(p)
  {
    FieldIssuesIff(FIELDS, holds, message);
    forall p: Field ensures p in FIELDS { AllFieldsListed(p); }
  }

  /** Each issue carries its field's message. */
  lemma {:induction false} FieldIssuesLast(fields: seq<Field>, holds: Field -> bool, message: Field -> Option<string>)
    ensures forall i :: 0 <= i < |FieldIssues(fields, holds, message)| ==>
      FieldIssues(fields, holds, message)[i].message == message(FieldIssues(fields, holds, message)[i].path)
    decreases |fields|
  {
    if fields != [] {
      FieldIssuesLast(fields[1..], holds, message);
    }
  }

  // ---------------------------------------------------------------------------
  // The server's `registerUserSchema`

  const SERVER_ROLES: seq<string> := ["EMPLOYEE", "MANAGER", "ADMINISTRATOR"]

  datatype RegisterRequest = RegisterRequest(id: string, firstName: string, lastName: string, email: string,
                                             role: string, teamId: string, hireDate: string, monthlySalary: real)

  /** The rule of one field of `registerUserSchema`. */
  predicate RegisterRule(r: RegisterRequest, isEmail: string -> bool, parsesDate: string -> bool, field: Field)
  {
    match field
    case Id => |r.id| >= 1
    case FirstName => |r.firstName| >= 1
    case LastName => |r.lastName| >= 1
    case Email => isEmail(r.email)
    case Role => r.role in SERVER_ROLES
    case TeamId => |r.teamId| >= 1
    case HireDate => parsesDate(r.hireDate)
    case MonthlySalary => r.monthlySalary > 0.0
  }

  function RegisterMessage(field: Field): Option<string>
  {
    match field
    case Id => Some("User ID is required")
    case FirstName => Some("First name is required")
    case LastName => Some("Last name is required")
    case Email => Some("Invalid email address")
    case Role => None
    case TeamId => Some("Team ID is required")
    case HireDate => Some("Invalid hire date format")
    case MonthlySalary => Some("Salary must be a positive number")
  }

  /** All of the schema's rules at once. */
  predicate RegisterRulesHold(r: RegisterRequest, isEmail: string -> bool, parsesDate: string -> bool)
  {
    |r.id| >= 1 && |r.firstName| >= 1 && |r.lastName| >= 1 && isEmail(r.email)
    && r.role in SERVER_ROLES && |r.teamId| >= 1 && parsesDate(r.hireDate) && r.monthlySalary > 0.0
  }

  lemma RegisterRulesAll(r: RegisterRequest, isEmail: string -> bool, parsesDate: string -> bool)
    ensures RegisterRulesHold(r, isEmail, parsesDate) <==> forall p :: RegisterRule(r, isEmail, parsesDate, p)
  {
    if !RegisterRulesHold(r, isEmail, parsesDate) {
      var p :| p in FIELDS && !RegisterRule(r, isEmail, parsesDate, p);
    }
  }

  /** The issues `registerUserSchema` reports. */
  function RegisterIssues(r: RegisterRequest, isEmail: string -> bool, parsesDate: string -> bool): (issues: seq<Issue>)
    ensures forall p :: IssueOn(issues, p) <==> !RegisterRule(r, isEmail, parsesDate, p)
    ensures |issues| <= 8
  {
    var holds := (p: Field) => RegisterRule(r, isEmail, parsesDate, p);
    AllFieldIssues(holds, RegisterMessage);
    FieldIssues(FIELDS, holds, RegisterMessage)
  }

  /** A registration is accepted iff every rule of the schema holds. */
  lemma RegisterAccepted(r: RegisterRequest, isEmail: string -> bool, parsesDate: string -> bool)
    ensures RegisterIssues(r, isEmail, parsesDate) == [] <==> RegisterRulesHold(r, isEmail, parsesDate)
  {
    var holds := (p: Field) => RegisterRule(r, isEmail, parsesDate, p);
    AllFieldIssues(holds, RegisterMessage);
    RegisterRulesAll(r, isEmail, parsesDate);
  }

  // ---------------------------------------------------------------------------
  // The browser's `userFormSchema`

  /** The roles the form offers: the server's shared role list, in its order. */
  const FORM_ROLES: seq<string> := ["EMPLOYEE", "ADMINISTRATOR", "MANAGER"]

  datatype UserForm = UserForm(id: string, firstName: string, lastName: string, email: Option<string>,
                               role: string, teamId: string, hireDate: string, monthlySalary: real,
                               isActive: Option<bool>)

  /** The object-level `refine`: a form with `isActive` is an update and needs
      no email; without it, it registers and needs a non-empty email. */
  predicate EmailRefine(f: UserForm)
  {
    f.isActive.Some? || (f.email.Some? && |f.email.value| > 0)
  }

  /** The rule of one field of `userFormSchema`; an email, when present, must
      pass the email check. */
  predicate FormRule(f: UserForm, isEmail: string -> bool, parsesDate: string -> bool, field: Field)
  {
    match field
    case Id => |f.id| >= 1
    case FirstName => |f.firstName| >= 1
    case LastName => |f.lastName| >= 1
    case Email => f.email.None? || isEmail(f.email.value)
    case Role => f.role in FORM_ROLES
    case TeamId => |f.teamId| >= 1
    case HireDate => parsesDate(f.hireDate)
    case MonthlySalary => f.monthlySalary > 0.0
  }

  function FormMessage(field: Field): Option<string>
  {
    if field == TeamId then Some("Team is required") else RegisterMessage(field)
  }

  const EMAIL_REQUIRED := "Email is required for registration"

  /** All of the form's field rules at once. */
  predicate FormFieldsHold(f: UserForm, isEmail: string -> bool, parsesDate: string -> bool)
  {
    |f.id| >= 1 && |f.firstName| >= 1 && |f.lastName| >= 1 && (f.email.None? || isEmail(f.email.value))
    && f.role in FORM_ROLES && |f.teamId| >= 1 && parsesDate(f.hireDate) && f.monthlySalary > 0.0
  }

  lemma FormRulesAll(f: UserForm, isEmail: string -> bool, parsesDate: string -> bool)
    ensures FormFieldsHold(f, isEmail, parsesDate) <==> forall p :: FormRule(f, isEmail, parsesDate, p)
  {
    if !FormFieldsHold(f, isEmail, parsesDate) {
      var p :| p in FIELDS && !FormRule(f, isEmail, parsesDate, p);
    }
  }

  /** The issues of the field rules, in field order. */
  function FormFieldIssues(f: UserForm, isEmail: string -> bool, parsesDate: string -> bool): (issues: seq<Issue>)
    ensures forall p :: IssueOn(issues, p) <==> !FormRule(f, isEmail, parsesDate, p)
  {
    var holds := (p: Field) => FormRule(f, isEmail, parsesDate, p);
    AllFieldIssues(holds, FormMessage);
    FieldIssues(FIELDS, holds, FormMessage)
  }

  /** The field issues followed by the refine's issue on `email`. */
  function FormIssues(f: UserForm, isEmail: string -> bool, parsesDate: string -> bool): (issues: seq<Issue>)
    ensures forall p :: p != Email ==> (IssueOn(issues, p) <==> !FormRule(f, isEmail, parsesDate, p))
    ensures IssueOn(issues, Email) <==> !FormRule(f, isEmail, parsesDate, Email) || !EmailRefine(f)
  {
    var fields := FormFieldIssues(f, isEmail, parsesDate);
    var refine := Check(EmailRefine(f), Email, Some(EMAIL_REQUIRED));
    PathsOfAppend(fields, refine);
    fields + refine
  }

  /** A form is accepted iff every field rule and the refine hold. */
  lemma FormAccepted(f: UserForm, isEmail: string -> bool, parsesDate: string -> bool)
    ensures FormIssues(f, isEmail, parsesDate) == [] <==> FormFieldsHold(f, isEmail, parsesDate) && EmailRefine(f)
  {
    var holds := (p: Field) => FormRule(f, isEmail, parsesDate, p);
    AllFieldIssues(holds, FormMessage);
    FormRulesAll(f, isEmail, parsesDate);
  }

  /** The refine fails iff the list ends with its issue: the field rules never
      report that message. */
  lemma RefineIssueLast(f: UserForm, isEmail: string -> bool, parsesDate: string -> bool)
    ensures var issues := FormIssues(f, isEmail, parsesDate);
      !EmailRefine(f) <==> issues != [] && issues[|issues| - 1] == Issue(Email, Some(EMAIL_REQUIRED))
  {
    var fields := FormFieldIssues(f, isEmail, parsesDate);
    FieldIssuesLast(FIELDS, (p: Field) => FormRule(f, isEmail, parsesDate, p), FormMessage);
    if EmailRefine(f) && fields != [] {
      var last := fields[|fields| - 1];
      assert last.message == FormMessage(last.path);
      assert FormIssues(f, isEmail, parsesDate)[|fields| - 1] == last;
    }
  }

  /** The update form (with `isActive`) is accepted without any email. */
  lemma UpdateFormNeedsNoEmail(f: UserForm, isEmail: string -> bool, parsesDate: string -> bool)
    requires f.isActive.Some? && f.email.None?
    requires |f.id| >= 1 && |f.firstName| >= 1 && |f.lastName| >= 1 && f.role in FORM_ROLES
    requires |f.teamId| >= 1 && parsesDate(f.hireDate) && f.monthlySalary > 0.0
    ensures FormIssues(f, isEmail, parsesDate) == []
  {
    FormAccepted(f, isEmail, parsesDate);
  }

  /** The register form (without `isActive`) is refused without an email, or
      with an empty one, whatever the other fields hold, and the refusal is
      reported on `email`. */
  lemma RegisterFormNeedsEmail(f: UserForm, isEmail: string -> bool, parsesDate: string -> bool)
    requires f.isActive.None? && (f.email.None? || f.email.value == "")
    ensures FormIssues(f, isEmail, parsesDate) != []
    ensures IssueOn(FormIssues(f, isEmail, parsesDate), Email)
  {
  }
}
