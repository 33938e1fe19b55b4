/**
 * `OrgAdminGuard`: admits a request only when the directory lists the
 * caller as an admin or owner of the organization. It has no session fast
 * path and writes nothing onto the request.
 */
module OrgAdminGuard {
  import opened Wrappers
  import opened Exceptions
  import opened Directory
  import opened Requests
  import OrgMemberGuard

  const NotAMember := "You are not a member of this organization"
  const NotAnAdmin := "You must be an admin or owner of this organization"
  const AccessDenied := "Access denied"

  /** `request.params.id || request.params.organizationId` */
  function TargetOrganization(params: map<string, string>): (organizationId: string)
    ensures "id" in params && params["id"] != "" ==> organizationId == params["id"]
    ensures !("id" in params && params["id"] != "") ==>
      organizationId == if "organizationId" in params then params["organizationId"] else ""
  {
    if "id" in params && params["id"] != "" then params["id"]
    else if "organizationId" in params then params["organizationId"]
    else ""
  }

  predicate IsAdminRole(r: Role) { r == Admin || r == Owner }

  /** The body of the `try` block. */
  function TryCheck(userId: string, l: Lookup): (r: Outcome<bool>)
    ensures r.Ok? ==> r.value
    ensures r.Ok? <==> FindIn(l, userId).Some? && IsAdminRole(FindIn(l, userId).value.role)
    ensures l.Failed? ==> r == Err(l.error)
    ensures !l.Failed? && FindIn(l, userId).None? ==> r == Err(Forbidden(NotAMember))
    ensures FindIn(l, userId).Some? && !IsAdminRole(FindIn(l, userId).value.role) ==> r == Err(Forbidden(NotAnAdmin))
  {
    if l.Failed? then Err(l.error)
    else
      var member := FindIn(l, userId);
      if member.None? then Err(Forbidden(NotAMember))
      else if !IsAdminRole(member.value.role) then Err(Forbidden(NotAnAdmin))
      else Ok(true)
  }

  /** The catch block: a `ForbiddenException` passes through, anything else becomes "Access denied". */
  function Rethrow(e: Exception): (f: Exception)
    ensures f.Forbidden?
    ensures e.Forbidden? ==> f == e
  {
    if e.Forbidden? then e else Forbidden(AccessDenied)
  }

  /**
   * `OrgAdminGuard.canActivate(context)` for the route parameters, the
   * attached user, and the directory's answer for the target organization.
   */
  function CanActivate(params: map<string, string>, user: Option<User>, l: Lookup): (r: Outcome<bool>)
    // A missing user or organization denies without an exception.
    ensures user.None? || TargetOrganization(params) == "" ==> r == Ok(false)
    // Admission exactly for a listed admin or owner.
    ensures r == Ok(true) <==>
      user.Some? && TargetOrganization(params) != "" &&
      FindIn(l, user.value.id).Some? && IsAdminRole(FindIn(l, user.value.id).value.role)
    ensures user.Some? && TargetOrganization(params) != "" && !l.Failed? && FindIn(l, user.value.id).None? ==>
      r == Err(Forbidden(NotAMember))
    ensures (user.Some? && TargetOrganization(params) != "" && FindIn(l, user.value.id).Some? &&
             !IsAdminRole(FindIn(l, user.value.id).value.role)) ==> r == Err(Forbidden(NotAnAdmin))
    // A failed lookup never admits: a Forbidden error passes through, any other becomes "Access denied".
    ensures user.Some? && TargetOrganization(params) != "" && l.Failed? ==> r == Err(Rethrow(l.error))
    ensures r.Err? ==> r.error.Forbidden?
  {
    var organizationId := TargetOrganization(params);
    if user.None? || organizationId == "" then Ok(false)
    else
      match TryCheck(user.value.id, l)
      case Ok(b) => Ok(b)
      case Err(e) => Err(Rethrow(e))
  }

  /**
   * Whenever this guard admits, the member guard admits the same user to the
   * same organization, whatever the session says; on its lookup path it also
   * sets the admin flag.
   */
  lemma AdminImpliesMember(params: map<string, string>, user: Option<User>, session: Option<Session>, l: Lookup)
    requires CanActivate(params, user, l) == Ok(true)
    ensures var d := OrgMemberGuard.Decide(TargetOrganization(params), user, session, l);
      d.Admit? && (!OrgMemberGuard.OnFastPath(session, TargetOrganization(params)) ==> d.context.isOrgAdmin)
  {
  }
}
