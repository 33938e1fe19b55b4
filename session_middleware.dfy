/**
 * The session middleware: asks the identity library for the session that
 * belongs to the request's headers, attaches `user` and `session` to the
 * request, and hands the request on. It fails closed.
 *
 * The cookie inspection at the start of `use` only feeds a log line and is
 * not modelled; the outcome depends on the library's reply alone.
 */
module SessionMiddleware {
  import opened Wrappers
  import opened Requests

  /** What `auth.api.getSession` produced. */
  datatype ProviderReply =
    | Threw                                                       // the call raised
    | NoSession                                                   // it returned null
    | SessionData(user: Option<User>, session: Option<Session>)   // it returned `{ user, session }`

  /** The `(req.user, req.session)` pair the middleware assigns for a reply. */
  function Identity(reply: ProviderReply): (id: (Option<User>, Option<Session>))
    // A user is attached exactly when the library returned one ...
    ensures id.0.Some? <==> reply.SessionData? && reply.user.Some?
    // ... and then user and session both come from that same reply;
    ensures id.0.Some? ==> id == (reply.user, reply.session)
    // otherwise both are null: no session without a user.
    ensures id.0.None? ==> id.1.None?
  {
    match reply
    case SessionData(u, s) =>
      if u.Some? then (u, s) else (None, None)
    case NoSession => (None, None)
    case Threw => (None, None)
  }

  /** A failing identity provider leaves the request anonymous. */
  lemma FailClosed(reply: ProviderReply)
    requires reply.Threw? || reply.NoSession?
    ensures Identity(reply) == (None, None)
  {
  }

  /** `SessionMiddleware.use(req, res, next)` */
  method Use(req: Request, reply: ProviderReply)
    modifies req`user, req`session, req`events
    ensures (req.user, req.session) == Identity(reply)
    // The identity is set first (nothing of an earlier identity survives), then `next` runs exactly once.
    ensures req.events == old(req.events) + [Identified(req.user, req.session), HandedOn]
  {
    match reply {
      case SessionData(u, s) =>
        if u.Some? {
          req.user := u;
          req.session := s;
        } else {
          req.user := None;
          req.session := None;
        }
      case NoSession =>
        req.user := None;
        req.session := None;
      case Threw =>
        // the catch block
        req.user := None;
        req.session := None;
    }
    req.events := req.events + [Identified(req.user, req.session)];
    req.Next();
  }
}
