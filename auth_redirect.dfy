/** Where a signed-in user is sent after login (apps/web/src/utils/auth-redirect.ts). */
module AuthRedirect {
  import opened Wrappers
  import opened Constant
  import Auth

  /** `getDashboardUrlForUser`: the landing page of the user's role, "/" for any other or
      missing role. */
  function DashboardUrl(role: Option<string>): (url: string)
    ensures url == "/admin" <==> role == Some("admin")
    ensures url == "/ops" <==> role == Some("ops")
    ensures url == "/dashboard" <==> role == Some("participant")
    ensures url == "/" <==> (role.None? || role.value !in {"admin", "ops", "participant"})
  {
    match role
    case Some("admin") => "/admin"
    case Some("ops") => "/ops"
    case Some("participant") => "/dashboard"
    case _ => "/"
  }

  /** The landing page agrees with the role gates: "/admin" is where exactly the sessions the
      admin gate admits go, and "/admin" or "/ops" where exactly those the ops gate admits go. */
  lemma LandingMatchesGates(userId: string, role: string)
    ensures DashboardUrl(Some(role)) == "/admin" <==>
      Auth.RequireAdmin(Auth.Request(Some(Auth.Session(userId, role)))).Ok?
    ensures DashboardUrl(Some(role)) in {"/admin", "/ops"} <==>
      Auth.RequireOpsOrAdmin(Auth.Request(Some(Auth.Session(userId, role)))).Ok?
  {
  }

  /** Every role code of the enum has its own landing page. */
  lemma EveryRoleLands(r: UserRole)
    ensures DashboardUrl(Some(RoleCode(r))) != "/"
  {
  }
}
