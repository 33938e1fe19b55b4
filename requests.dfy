/**
 * The Express request object as the middleware and the guards use it:
 * route parameters, the identity the session middleware attaches, and the
 * organization context the member guard attaches.
 */
module Requests {
  import opened Wrappers

  /** The part of the identity library's user record the core reads. */
  datatype User = User(id: string, email: string)

  /**
   * The identity library's session record. `role` is the session's `role`
   * property, with "" standing for every falsy value (absent, null, empty).
   */
  datatype Session = Session(activeOrganizationId: Option<string>, role: string)

  /** Observable steps taken on a request, in order. */
  datatype Event =
    | Identified(user: Option<User>, session: Option<Session>)  // `req.user` and `req.session` assigned
    | HandedOn                                                 // `next()` called

  class Request {
    const params: map<string, string>
    var user: Option<User>
    var session: Option<Session>
    // The organization context; `None` means the property was never written.
    var organizationId: Option<string>
    var userRole: Option<string>
    var isOrgOwner: Option<bool>
    var isOrgAdmin: Option<bool>
    ghost var events: seq<Event>

    constructor (params: map<string, string>)
      ensures this.params == params
      ensures user == None && session == None
      ensures organizationId == None && userRole == None && isOrgOwner == None && isOrgAdmin == None
      ensures events == []
    {
      this.params := params;
      user, session := None, None;
      organizationId, userRole, isOrgOwner, isOrgAdmin := None, None, None, None;
      events := [];
    }

    /** `request.params[name]`, with "" for a missing parameter (both are falsy). */
    function Param(name: string): (v: string)
      ensures name in params ==> v == params[name]
      ensures name !in params ==> v == ""
    {
      if name in params then params[name] else ""
    }

    /** The framework's `next` callback. */
    method Next()
      modifies this`events
      ensures events == old(events) + [HandedOn]
    {
      events := events + [HandedOn];
    }
  }
}
