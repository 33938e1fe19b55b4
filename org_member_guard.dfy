/**
 * `OrgMemberGuard`: admits a request to an organization route when the
 * caller belongs to the organization named by `:organizationId`, and
 * attaches the caller's role to the request.
 *
 * Two paths: when the session's active organization is the requested one,
 * the session's role is trusted without a lookup; otherwise the directory
 * is consulted and every failure on that path becomes "Access denied".
 */
module OrgMemberGuard {
  import opened Wrappers
  import opened Exceptions
  import opened Directory
  import opened Requests

  const AuthenticationRequired := "Authentication required"
  const NotAMember := "You are not a member of this organization"
  const AccessDenied := "Access denied"

  /** What the guard attaches to the request on admission. */
  datatype Context = Context(organizationId: string, userRole: string, isOrgOwner: bool, isOrgAdmin: bool)

  datatype Decision = Admit(context: Context) | Deny(error: Exception)

  /** The derived flags agree with the role. */
  predicate FlagsAgree(c: Context)
  {
    (c.isOrgOwner <==> c.userRole == "owner") &&
    (c.isOrgAdmin <==> c.userRole == "admin" || c.userRole == "owner")
  }

  /** `session?.activeOrganizationId === organizationId` */
  predicate OnFastPath(session: Option<Session>, organizationId: string)
  {
    session.Some? && session.value.activeOrganizationId == Some(organizationId)
  }

  /** The guard calls the directory exactly in this case. */
  predicate Consults(user: Option<User>, organizationId: string, session: Option<Session>)
  {
    user.Some? && organizationId != "" && !OnFastPath(session, organizationId)
  }

  /** The context built from the session's cached role. */
  function SessionContext(organizationId: string, role: string): (c: Context)
    ensures FlagsAgree(c)
    ensures c.userRole == if role == "" then "member" else role
  {
    Context(organizationId, if role == "" then "member" else role,
            role == "owner", role == "admin" || role == "owner")
  }

  /** The context built from the directory's row. */
  function RowContext(organizationId: string, role: Role): (c: Context)
    ensures FlagsAgree(c)
    ensures c.userRole == RoleName(role)
  {
    var name := RoleName(role);
    Context(organizationId, name, name == "owner", name == "admin" || name == "owner")
  }

  /** The body of the `try` block: lookup, `find`, and the not-a-member throw. */
  function TryLookup(organizationId: string, user: User, l: Lookup): (r: Outcome<Context>)
    ensures r.Ok? <==> FindIn(l, user.id).Some?
    ensures r.Ok? ==> r.value == RowContext(organizationId, FindIn(l, user.id).value.role)
  {
    if l.Failed? then Err(l.error)
    else
      var member := FindIn(l, user.id);
      if member.None? then Err(Forbidden(NotAMember))
      else Ok(RowContext(organizationId, member.value.role))
  }

  /**
   * The guard's decision for the `:organizationId` parameter, the attached
   * user and session, and the directory's answer for that organization
   * (which matters only when the guard consults it).
   */
  function Decide(organizationId: string, user: Option<User>, session: Option<Session>, l: Lookup): (d: Decision)
    ensures user.None? || organizationId == "" ==> d == Deny(Forbidden(AuthenticationRequired))
    ensures user.Some? && organizationId != "" && OnFastPath(session, organizationId) ==>
      d == Admit(SessionContext(organizationId, session.value.role))
    ensures Consults(user, organizationId, session) ==>
      (d.Admit? <==> FindIn(l, user.value.id).Some?)
    ensures Consults(user, organizationId, session) && d.Admit? ==>
      d.context.userRole == RoleName(FindIn(l, user.value.id).value.role)
    ensures Consults(user, organizationId, session) && d.Deny? ==> d.error == Forbidden(AccessDenied)
    ensures d.Admit? ==> d.context.organizationId == organizationId && FlagsAgree(d.context)
    ensures d.Deny? ==> d.error.Forbidden?
  {
    if user.None? || organizationId == "" then Deny(Forbidden(AuthenticationRequired))
    else if OnFastPath(session, organizationId) then Admit(SessionContext(organizationId, session.value.role))
    else
      match TryLookup(organizationId, user.value, l)
      case Ok(c) => Admit(c)
      case Err(_) => Deny(Forbidden(AccessDenied))   // the catch block
  }

  /** On admission the owner flag implies the admin flag. */
  lemma OwnerIsAdmin(organizationId: string, user: Option<User>, session: Option<Session>, l: Lookup)
    requires Decide(organizationId, user, session, l).Admit?
    ensures Decide(organizationId, user, session, l).context.isOrgOwner ==> Decide(organizationId, user, session, l).context.isOrgAdmin
  {
  }

  /** A cached role for another organization is never used: the role comes from the directory. */
  lemma CachedRoleOnlyForActiveOrganization(organizationId: string, user: User, session: Session, l: Lookup)
    requires organizationId != "" && session.activeOrganizationId != Some(organizationId)
    requires FindIn(l, user.id).Some?
    ensures Decide(organizationId, Some(user), Some(session), l).context.userRole == RoleName(FindIn(l, user.id).value.role)
  {
  }

  /** `OrgMemberGuard.canActivate(context)` */
  method CanActivate(req: Request, directory: OrgDirectory) returns (r: Outcome<bool>)
    modifies req`organizationId, req`userRole, req`isOrgOwner, req`isOrgAdmin, directory`queried
    ensures var organizationId := req.Param("organizationId");
      var d := Decide(organizationId, req.user, req.session, directory.AnswerFor(organizationId));
      && (d.Admit? ==>
          && r == Ok(true)
          && req.organizationId == Some(d.context.organizationId)
          && req.userRole == Some(d.context.userRole)
          && req.isOrgOwner == Some(d.context.isOrgOwner)
          && req.isOrgAdmin == Some(d.context.isOrgAdmin))
      && (d.Deny? ==>
          && r == Err(d.error)
          && req.organizationId == old(req.organizationId)
          && req.userRole == old(req.userRole)
          && req.isOrgOwner == old(req.isOrgOwner)
          && req.isOrgAdmin == old(req.isOrgAdmin))
      && directory.queried == old(directory.queried) +
           (if Consults(req.user, organizationId, req.session) then [organizationId] else [])
  {
    var organizationId := req.Param("organizationId");
    var user := req.user;
    var session := req.session;

    if user.None? || organizationId == "" {
      return Err(Forbidden(AuthenticationRequired));
    }

    if session.Some? && session.value.activeOrganizationId == Some(organizationId) {
      var role := session.value.role;
      req.organizationId := Some(organizationId);
      req.userRole := Some(if role == "" then "member" else role);
      req.isOrgOwner := Some(role == "owner");
      req.isOrgAdmin := Some(role == "admin" || role == "owner");
      return Ok(true);
    }

    var org := directory.GetFullOrganization(organizationId);
    var member := FindIn(org, user.value.id);
    if org.Failed? || member.None? {
      // a thrown lookup error or the not-a-member throw, both turned into "Access denied"
      return Err(Forbidden(AccessDenied));
    }
    var role := RoleName(member.value.role);
    req.organizationId := Some(organizationId);
    req.userRole := Some(role);
    req.isOrgOwner := Some(role == "owner");
    req.isOrgAdmin := Some(role == "admin" || role == "owner");
    return Ok(true);
  }
}
