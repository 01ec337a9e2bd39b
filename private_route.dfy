/** The route guard of client/src/components/PrivateRoute.jsx. */
module PrivateRouteComponent {
  import opened JsValues

  /** `<Navigate to="/login" />`, `<Navigate to="/" />`, or the children. */
  datatype Outcome = RedirectToLogin | RedirectToHome | RenderChildren

  /** `roles.includes(auth.role)`: a missing role is in no list of strings,
      and an empty list admits nobody. */
  predicate RoleListed(role: Option<JsStr>, roles: seq<JsStr>): (ok: bool)
    ensures ok ==> role.Some?
    ensures roles == [] ==> !ok
  {
    role.Some? && role.value in roles
  }

  /** The guard over `auth.token`, `auth.role` and the optional `roles` prop. */
  function PrivateRoute(token: Option<JsStr>, role: Option<JsStr>, roles: Option<seq<JsStr>>): (r: Outcome)
    ensures r == RedirectToLogin <==> !Truthy(token)
    ensures r == RedirectToHome <==> Truthy(token) && roles.Some? && !RoleListed(role, roles.value)
    ensures r == RenderChildren <==> Truthy(token) && (roles.None? || RoleListed(role, roles.value))
  {
    if !Truthy(token) then RedirectToLogin
    else if roles.Some? && !RoleListed(role, roles.value) then RedirectToHome
    else RenderChildren
  }

  /** The `/create` route guards the quiz creator with `roles={["admin"]}`:
      only a logged-in admin reaches it, a logged-in non-admin is sent home,
      and anyone without a token is sent to the login page first. */
  lemma CreateRouteAdminOnly(token: Option<JsStr>, role: Option<JsStr>)
    ensures PrivateRoute(token, role, Some([Lit("admin")])) == RenderChildren
      <==> Truthy(token) && role == Some(Lit("admin"))
    ensures !Truthy(token) ==> PrivateRoute(token, role, Some([Lit("admin")])) == RedirectToLogin
  {
  }
}
