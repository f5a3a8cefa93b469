/** The access middleware: a request passes when its session holds a user and,
    for the role checks, when a required role occurs as a substring of the
    user's role. A pass stamps the user's last activity and hands the request
    on; a rejection answers 401 or 403 and stops. */
module Auth {
  import opened Common
  import opened Text

  /** The user record a session carries. */
  datatype SessionUser = SessionUser(userId: string, email: string, firstName: Option<string>, lastName: Option<string>,
                                     role: string, changePassword: bool, sessionCreatedAt: string, lastActivity: string)

  /** A rejection's status and the `error` field of its JSON body. */
  datatype Rejection = Rejection(status: int, error: string)

  /** What a middleware decides for a request. */
  datatype Decision = Pass | Reject(rejection: Rejection)

  const AUTH_REQUIRED := Rejection(401, "Authentication required")

  /** `requireAuth`: any session user passes. */
  function AuthDecision(user: Option<SessionUser>): (d: Decision)
    ensures d.Pass? <==> user.Some?
    ensures d.Reject? ==> d.rejection == AUTH_REQUIRED
  {
    if user.None? then Reject(AUTH_REQUIRED) else Pass
  }

  function RoleRequired(role: string): Rejection
  {
    Rejection(403, "Role '" + role + "' required")
  }

  /** `requireRole(role)`: a 401 without a user, a 403 unless `role` occurs
      inside the user's role. */
  function RoleDecision(user: Option<SessionUser>, role: string): (d: Decision)
    ensures user.None? ==> d == Reject(AUTH_REQUIRED)
    ensures user.Some? ==> (d.Pass? <==> OccursIn(role, user.value.role))
    ensures user.Some? && d.Reject? ==> d.rejection == RoleRequired(role)
  {
    if user.None? then Reject(AUTH_REQUIRED)
    else
      IncludesIffOccurs(user.value.role, role);
      if !Includes(user.value.role, role) then Reject(RoleRequired(role)) else Pass
  }

  function AnyRoleRequired(roles: seq<string>): Rejection
  {
    Rejection(403, "One of these roles required: " + Join(roles, ", "))
  }

  /** `roles.some(role => userRole.includes(role))`. */
  function SomeIncluded(userRole: string, roles: seq<string>): (b: bool)
    ensures b <==> exists i :: 0 <= i < |roles| && OccursIn(roles[i], userRole)
  {
    if roles == [] then false
    else
      IncludesIffOccurs(userRole, roles[0]);
      var rest := SomeIncluded(userRole, roles[1..]);
      assert rest <==> exists i :: 1 <= i < |roles| && OccursIn(roles[i], userRole) by {
        if rest {
          var i :| 0 <= i < |roles[1..]| && OccursIn(roles[1..][i], userRole);
          assert OccursIn(roles[i + 1], userRole);
        }
        if exists i :: 1 <= i < |roles| && OccursIn(roles[i], userRole) {
          var i :| 1 <= i < |roles| && OccursIn(roles[i], userRole);
          assert OccursIn(roles[1..][i - 1], userRole);
        }
      }
      Includes(userRole, roles[0]) || rest
  }

  /** `requireAnyRole(roles)`: a 401 without a user, a 403 unless one of the
      roles occurs inside the user's role. */
  function AnyRoleDecision(user: Option<SessionUser>, roles: seq<string>): (d: Decision)
    ensures user.None? ==> d == Reject(AUTH_REQUIRED)
    ensures user.Some? ==> (d.Pass? <==> exists i :: 0 <= i < |roles| && OccursIn(roles[i], user.value.role))
    ensures user.Some? && d.Reject? ==> d.rejection == AnyRoleRequired(roles)
  {
    if user.None? then Reject(AUTH_REQUIRED)
    else if !SomeIncluded(user.value.role, roles) then Reject(AnyRoleRequired(roles))
    else Pass
  }

  /** With no roles listed nobody passes. */
  lemma AnyRoleOfNone(user: SessionUser)
    ensures AnyRoleDecision(Some(user), []) == Reject(AnyRoleRequired([]))
    ensures AnyRoleRequired([]).error == "One of these roles required: "
  {
  }

  /** One listed role decides as `requireRole` does, though the two messages differ. */
  lemma AnyRoleOfOne(user: Option<SessionUser>, role: string)
    ensures AnyRoleDecision(user, [role]).Pass? <==> RoleDecision(user, role).Pass?
    ensures user.Some? && !RoleDecision(user, role).Pass? ==>
      AnyRoleDecision(user, [role]).rejection.error == "One of these roles required: " + role
  {
    if user.Some? {
      if OccursIn(role, user.value.role) {
        assert OccursIn([role][0], user.value.role);
      }
    }
  }

  /** Because the test is a substring test, a role that contains a required
      role passes for it: a `MANAGER` passes `requireRole("MANAGE")`, and every
      user passes `requireRole("")`. */
  lemma SubstringRolesPass(user: SessionUser)
    ensures user.role == "MANAGER" ==> RoleDecision(Some(user), "MANAGE").Pass?
    ensures RoleDecision(Some(user), "").Pass?
  {
    assert OccursAt("", user.role, 0);
    if user.role == "MANAGER" {
      assert OccursAt("MANAGE", user.role, 0);
    }
  }

  /** Adding roles to the list never turns a pass into a rejection. */
  lemma AnyRoleMonotone(user: Option<SessionUser>, roles: seq<string>, more: seq<string>)
    requires AnyRoleDecision(user, roles).Pass?
    ensures AnyRoleDecision(user, roles + more).Pass?
  {
    var i :| 0 <= i < |roles| && OccursIn(roles[i], user.value.role);
    assert (roles + more)[i] == roles[i];
  }

  /** The request as the middleware sees it: the session's user, whether the
      next handler was called and the rejection sent, if any. */
  class Request {
    var user: Option<SessionUser>
    var nextCalled: bool
    var sent: Option<Rejection>

    constructor (user: Option<SessionUser>)
      ensures this.user == user && !nextCalled && sent.None?
    {
      this.user := user;
      nextCalled := false;
      sent := None;
    }

    /** Carry out a decision: a pass stamps `lastActivity` with the current
        time and calls next; a rejection sends its reply and calls nothing. */
    method Apply(d: Decision, nowIso: string)
      requires d.Pass? ==> user.Some?
      modifies this
      ensures d.Pass? ==> user == Some(old(user).value.(lastActivity := nowIso)) && nextCalled && sent == old(sent)
      ensures d.Reject? ==> user == old(user) && nextCalled == old(nextCalled) && sent == Some(d.rejection)
    {
      match d
      case Pass =>
        user := Some(user.value.(lastActivity := nowIso));
        nextCalled := true;
      case Reject(r) =>
        sent := Some(r);
    }

    method RequireAuth(nowIso: string)
      modifies this
      ensures old(user).None? ==> user == old(user) && nextCalled == old(nextCalled) && sent == Some(AUTH_REQUIRED)
      ensures old(user).Some? ==> user == Some(old(user).value.(lastActivity := nowIso)) && nextCalled && sent == old(sent)
    {
      Apply(AuthDecision(user), nowIso);
    }

    method RequireRole(role: string, nowIso: string)
      modifies this
      ensures RoleDecision(old(user), role).Reject? ==>
        user == old(user) && nextCalled == old(nextCalled) && sent == Some(RoleDecision(old(user), role).rejection)
      ensures RoleDecision(old(user), role).Pass? ==>
        user == Some(old(user).value.(lastActivity := nowIso)) && nextCalled && sent == old(sent)
    {
      Apply(RoleDecision(user, role), nowIso);
    }

    method RequireAnyRole(roles: seq<string>, nowIso: string)
      modifies this
      ensures AnyRoleDecision(old(user), roles).Reject? ==>
        user == old(user) && nextCalled == old(nextCalled) && sent == Some(AnyRoleDecision(old(user), roles).rejection)
      ensures AnyRoleDecision(old(user), roles).Pass? ==>
        user == Some(old(user).value.(lastActivity := nowIso)) && nextCalled && sent == old(sent)
    {
      Apply(AnyRoleDecision(user, roles), nowIso);
    }
  }
}
