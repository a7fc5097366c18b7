/** The `delete-user` edge function: after the shared admin guard it reads
    `user_id` from the body, refuses to delete the caller, then deletes the
    auth user and the profile row without inspecting either result. */
module DeleteUser {
  import opened Common
  import opened AdminAuth
  import ResetPassword

  /** A deletion the function asks for. */
  datatype Action = DeleteAuthUser(userId: string) | DeleteProfile(userId: string)

  datatype Response = Response(reply: Reply, actions: seq<Action>)

  const MissingUserId := Reply(400, "Missing user_id", false)
  const SelfDelete := Reply(400, "Cannot delete yourself", false)

  /** The handler. Once every check passes it always answers 200. */
  function Handle(req: Request, be: Backend): (r: Response)
    ensures Guard(req, be).Answered? ==> r == Response(Guard(req, be).reply, [])
    ensures Guard(req, be).Admitted? && req.body.None? ==> r == Response(ServerError, [])
    ensures (Guard(req, be).Admitted? && req.body.Some? && !Present(req.body.value.userId)) ==>
              r == Response(MissingUserId, [])
    ensures (Guard(req, be).Admitted? && req.body.Some? && Present(req.body.value.userId)
             && req.body.value.userId.value == Guard(req, be).caller) ==>
              r == Response(SelfDelete, [])
    ensures r.actions != [] <==>
              (Guard(req, be).Admitted? && req.body.Some? && Present(req.body.value.userId)
               && req.body.value.userId.value != Guard(req, be).caller)
    ensures r.actions != [] ==>
              r.reply == Success
              && r.actions == [DeleteAuthUser(req.body.value.userId.value), DeleteProfile(req.body.value.userId.value)]
  {
    match Guard(req, be)
    case Answered(reply) => Response(reply, [])
    case Admitted(caller) =>
      match req.body
      case None => Response(ServerError, [])
      case Some(b) =>
        if !Present(b.userId) then Response(MissingUserId, [])
        else if b.userId.value == caller then Response(SelfDelete, [])
        else Response(Success, [DeleteAuthUser(b.userId.value), DeleteProfile(b.userId.value)])
  }

  /** The caller is never deleted, and only an admin deletes anyone. */
  lemma NeverDeletesCaller(req: Request, be: Backend)
    ensures forall a :: a in Handle(req, be).actions ==>
              CallerOf(req, be).Some? && IsAdmin(be, CallerOf(req, be).value)
              && a.userId != CallerOf(req, be).value
  {
  }

  /** A preflight gets "ok" whatever else the request carries. */
  lemma PreflightFirst(req: Request, be: Backend)
    requires req.verb == "OPTIONS"
    ensures Handle(req, be) == Response(PreflightOk, [])
  {
  }

  /** Until the caller is admitted, the body makes no difference. */
  lemma BodyReadAfterGuard(req: Request, be: Backend, body: Option<Body>)
    requires Guard(req, be).Answered?
    ensures Handle(req.(body := body), be) == Handle(req, be)
  {
    GuardIgnoresBody(req, be, body);
  }

  /** The two functions agree on everything before the body: same
      preflight, same 401 and 403 answers for the same request. */
  lemma SameGuardAsReset(req: Request, be: Backend, updateError: Option<string>)
    requires Guard(req, be).Answered?
    ensures Handle(req, be).reply == ResetPassword.Handle(req, be, updateError).reply
  {
  }
}
