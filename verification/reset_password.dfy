/** The `reset-password` edge function: after the shared admin guard it
    reads `user_id` and `new_password` from the body, refuses a reset of
    the caller's own password, and asks the auth service to set the new
    password. The service's answer is a parameter. */
module ResetPassword {
  import opened Common
  import opened AdminAuth

  /** A change the function asks the auth service for. */
  datatype Action = UpdatePassword(userId: string, password: string)

  /** The reply and the changes made on the way. */
  datatype Response = Response(reply: Reply, actions: seq<Action>)

  const MissingFields := Reply(400, "Missing fields", false)
  const OwnPassword := Reply(400, "You cannot reset your own password here", false)

  /** The request with everything the function needs to act: an admin
      caller and a body with both fields set. */
  predicate Actionable(req: Request, be: Backend) {
    && Guard(req, be).Admitted?
    && req.body.Some?
    && Present(req.body.value.userId)
    && Present(req.body.value.newPassword)
  }

  /** The handler. `updateError` is the message of the error the update
      call returns, if it returns one. */
  function Handle(req: Request, be: Backend, updateError: Option<string>): (r: Response)
    ensures Guard(req, be).Answered? ==> r == Response(Guard(req, be).reply, [])
    ensures Guard(req, be).Admitted? && req.body.None? ==> r == Response(ServerError, [])
    ensures (Guard(req, be).Admitted? && req.body.Some?
             && !(Present(req.body.value.userId) && Present(req.body.value.newPassword))) ==>
              r == Response(MissingFields, [])
    ensures (Actionable(req, be) && req.body.value.userId.value == Guard(req, be).caller) ==>
              r == Response(OwnPassword, [])
    ensures r.actions != [] <==>
              Actionable(req, be) && req.body.value.userId.value != Guard(req, be).caller
    ensures (r.actions != []) ==>
              r.actions == [UpdatePassword(req.body.value.userId.value, req.body.value.newPassword.value)]
    ensures (r.actions != []) ==>
              r.reply == if updateError.Some? then Reply(400, updateError.value, false) else Success
  {
    match Guard(req, be)
    case Answered(reply) => Response(reply, [])
    case Admitted(caller) =>
      match req.body
      case None => Response(ServerError, [])
      case Some(b) =>
        if !Present(b.userId) || !Present(b.newPassword) then Response(MissingFields, [])
        else if b.userId.value == caller then Response(OwnPassword, [])
        else
          var act := [UpdatePassword(b.userId.value, b.newPassword.value)];
          match updateError
          case Some(m) => Response(Reply(400, m, false), act)
          case None => Response(Success, act)
  }

  /** The caller's own password is never changed, and nothing is changed
      for a caller who is not an admin. */
  lemma NeverResetsCaller(req: Request, be: Backend, updateError: Option<string>)
    ensures forall a :: a in Handle(req, be, updateError).actions ==>
              CallerOf(req, be).Some? && IsAdmin(be, CallerOf(req, be).value)
              && a.userId != CallerOf(req, be).value
  {
  }

  /** A preflight gets "ok" whatever else the request carries. */
  lemma PreflightFirst(req: Request, be: Backend, updateError: Option<string>)
    requires req.verb == "OPTIONS"
    ensures Handle(req, be, updateError) == Response(PreflightOk, [])
  {
  }

  /** Until the caller is admitted, the body makes no difference. */
  lemma BodyReadAfterGuard(req: Request, be: Backend, body: Option<Body>, updateError: Option<string>)
    requires Guard(req, be).Answered?
    ensures Handle(req.(body := body), be, updateError) == Handle(req, be, updateError)
  {
    GuardIgnoresBody(req, be, body);
  }

  /** An admin with a well-formed request for another user gets the
      password set and the JSON success reply when the service agrees. */
  lemma AdminResetsOther(token: string, admin: string, target: string, password: string,
                         be: Backend)
    requires token in be.sessions && be.sessions[token] == admin && IsAdmin(be, admin)
    requires target != admin && target != "" && password != ""
    ensures var req := Request("POST", Some("Bearer " + token), Some(Body(Some(target), Some(password))));
            Handle(req, be, None) == Response(Success, [UpdatePassword(target, password)])
  {
    BearerPrefix(token);
  }
}
