/** Session and role gates of the server functions (apps/web/src/apis/auth.ts). The session
    lookup of the authentication library is an input: a request context carries the session it
    resolved to, if any. */
module Auth {
  import opened Wrappers
  import opened Constant

  /** The authenticated user of a session: its id and the `role` column as stored. */
  datatype Session = Session(userId: string, role: string)

  datatype RequestContext = NoRequest | Request(session: Option<Session>)

  /** `requireSession`. */
  function RequireSession(ctx: RequestContext): (r: Result<Session>)
    ensures r.Ok? <==> ctx.Request? && ctx.session.Some?
    ensures r.Ok? ==> r.value == ctx.session.value
    ensures ctx.NoRequest? ==> r == Err("No request context")
    ensures ctx.Request? && ctx.session.None? ==> r == Err("Unauthorized")
  {
    match ctx
    case NoRequest => Err("No request context")
    case Request(session) =>
      if session.None? then Err("Unauthorized") else Ok(session.value)
  }

  /** The session's role is the code of one of the allowed roles. */
  predicate RoleAllowed(role: string, allowed: seq<UserRole>) {
    exists i :: 0 <= i < |allowed| && RoleCode(allowed[i]) == role
  }

  /** `requireRole`: the session errors propagate; then "Forbidden" exactly when the role is not
      among the allowed ones. */
  function RequireRole(ctx: RequestContext, allowed: seq<UserRole>): (r: Result<Session>)
    ensures RequireSession(ctx).Err? ==> r == RequireSession(ctx)
    ensures RequireSession(ctx).Ok? ==>
      (r.Ok? <==> RoleAllowed(RequireSession(ctx).value.role, allowed))
    ensures RequireSession(ctx).Ok? && !RoleAllowed(RequireSession(ctx).value.role, allowed) ==>
      r == Err("Forbidden")
    ensures r.Ok? ==> r == RequireSession(ctx)
  {
    var s := RequireSession(ctx);
    if s.Err? then s
    else if Includes(allowed, s.value.role) then s
    else Err("Forbidden")
  }

  /** `allowedRoles.includes(role)`, scanning the list. */
  function Includes(allowed: seq<UserRole>, role: string): (b: bool)
    ensures b <==> RoleAllowed(role, allowed)
  {
    if allowed == [] then false
    else if RoleCode(allowed[0]) == role then true
    else
      assert RoleAllowed(role, allowed[1..]) ==> RoleAllowed(role, allowed) by {
        if RoleAllowed(role, allowed[1..]) {
          var i :| 0 <= i < |allowed[1..]| && RoleCode(allowed[1..][i]) == role;
          assert RoleCode(allowed[i + 1]) == role;
        }
      }
      Includes(allowed[1..], role)
  }

  function RequireAdmin(ctx: RequestContext): (r: Result<Session>)
    ensures r.Ok? <==> RequireSession(ctx).Ok? && RequireSession(ctx).value.role == "admin"
  {
    RequireRole(ctx, [Admin])
  }

  function RequireOpsOrAdmin(ctx: RequestContext): (r: Result<Session>)
    ensures r.Ok? <==> RequireSession(ctx).Ok? && RequireSession(ctx).value.role in {"ops", "admin"}
  {
    assert RoleCode(Ops) == "ops" && RoleCode(Admin) == "admin";
    RequireRole(ctx, [Ops, Admin])
  }

  /** A participant passes neither the admin gate nor the ops gate. */
  lemma ParticipantRejected(userId: string)
    ensures RequireAdmin(Request(Some(Session(userId, "participant")))) == Err("Forbidden")
    ensures RequireOpsOrAdmin(Request(Some(Session(userId, "participant")))) == Err("Forbidden")
  {
  }

  /** Every session that passes the admin gate passes the ops gate too. */
  lemma AdminGateStricter(ctx: RequestContext)
    ensures RequireAdmin(ctx).Ok? ==> RequireOpsOrAdmin(ctx).Ok?
  {
  }
}
