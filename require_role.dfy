/**
 * The role guard in front of the routes (healthQue-backend/middlewares/requireRole.js):
 * `requireRole(roles)` is a middleware that lets a signed-in user through
 * when `roles` is unset, holds the user's role (an array of roles) or is that
 * role (a single role), and otherwise answers 401 or 403.
 *
 * The middleware is a pure decision here: it reads `req.user` and either
 * calls `next` or sends one response, so the outcome is a value and the
 * request is not touched.
 */
module RequireRole {
  import opened JsValue

  /** What the middleware does with a request: pass it on once, or answer. */
  datatype Outcome = Next | Refuse(code: int, error: string)

  const MissingAuthentication := Refuse(401, "Missing authentication")
  const Forbidden := Refuse(403, "Forbidden")

  /** The middleware `requireRole(roles)` applied to a request whose
      `req.user` is `user`. */
  function Check(roles: Value, user: Value): (r: Outcome)
    ensures r == Next || r == MissingAuthentication || r == Forbidden
    ensures r == MissingAuthentication <==> !Truthy(user)
    ensures r == Next <==>
              Truthy(user)
              && (!Truthy(roles)
                  || (roles.Arr? && Get(user, "role") in roles.items)
                  || (!roles.Arr? && Get(user, "role") == roles))
  {
    if !Truthy(user) then MissingAuthentication
    else
      var current := Get(user, "role");
      if !Truthy(roles) then Next
      else if roles.Arr? then (if current in roles.items then Next else Forbidden)
      else if current != roles then Forbidden
      else Next
  }

  /** A single role guards exactly as the one-element array holding it. */
  lemma SingleRoleIsOneElementArray(role: Value, user: Value)
    requires Truthy(role) && !role.Arr?
    ensures Check(role, user) == Check(Arr([role]), user)
  {
  }

  /** Adding roles to the array never locks out a user it let through, and
      never lets through a user who is not signed in. */
  lemma MoreRolesAdmitMore(items: seq<Value>, more: seq<Value>, user: Value)
    ensures Check(Arr(items), user) == Next ==> Check(Arr(items + more), user) == Next
    ensures Check(Arr(items + more), user) == MissingAuthentication <==> Check(Arr(items), user) == MissingAuthentication
  {
    if Check(Arr(items), user) == Next {
      assert Get(user, "role") in items + more;
    }
  }

  /** An empty array is a truthy value, so it refuses every signed-in user. */
  lemma EmptyArrayRefusesAll(user: Value)
    requires Truthy(user)
    ensures Check(Arr([]), user) == Forbidden
  {
  }

  /** The guard of the appointment booking route, `requireRole('patient')`:
      only a signed-in user whose role is the text 'patient' gets through. */
  lemma PatientRouteGuard(user: Value)
    ensures Check(Str("patient"), user) == Next <==> Truthy(user) && Get(user, "role") == Str("patient")
  {
  }
}
