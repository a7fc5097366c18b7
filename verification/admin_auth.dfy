/** The request handling the two admin edge functions share: the CORS
    preflight answer, the bearer token taken from the Authorization header,
    the caller looked up by that token, and the admin-role check. The auth
    service and the profiles table are replaced by two lookups. */
module AdminAuth {
  import opened Common
  import opened JsString

  /** The JSON body's fields the functions read. A field that is absent or
      not a string is `None`. */
  datatype Body = Body(userId: Option<string>, newPassword: Option<string>)

  /** An incoming request. `body` is `None` when `req.json()` throws or
      yields no object to destructure. */
  datatype Request = Request(verb: string, authorization: Option<string>, body: Option<Body>)

  /** What the services know: which user a token belongs to, and each
      user's profile role. A missing key is a missing user or profile. */
  datatype Backend = Backend(sessions: map<string, string>, roles: map<string, string>)

  /** A response. Every response carries the CORS headers; `json` marks the
      extra JSON content type of the success reply. */
  datatype Reply = Reply(status: int, body: string, json: bool)

  const PreflightOk := Reply(200, "ok", false)
  const Unauthorized := Reply(401, "Unauthorized", false)
  const Forbidden := Reply(403, "Forbidden", false)
  const ServerError := Reply(500, "Server error", false)
  const Success := Reply(200, "{\"success\":true}", true)

  /** `authHeader.replace("Bearer ", "")`: the first occurrence of
      "Bearer " is removed, wherever it is; a header without one is used as
      it is. */
  function BearerToken(header: string): (t: string)
    ensures (forall j :: !OccursAt(header, "Bearer ", j)) ==> t == header
    ensures forall i: nat :: OccursAt(header, "Bearer ", i)
                             && (forall j: nat :: j < i ==> !OccursAt(header, "Bearer ", j))
                             ==> t == header[..i] + header[i + 7..]
  {
    ReplaceFirst(header, "Bearer ", "")
  }

  /** A header of the usual form "Bearer <token>" yields the token. */
  lemma BearerPrefix(token: string)
    ensures BearerToken("Bearer " + token) == token
  {
    ReplaceFirstPrefix("Bearer ", token);
  }

  /** The caller a request authenticates as: none without a non-empty
      header or when the token is unknown. */
  function CallerOf(req: Request, be: Backend): (r: Option<string>)
    ensures r.Some? <==> Present(req.authorization) && BearerToken(req.authorization.value) in be.sessions
    ensures r.Some? ==> r.value == be.sessions[BearerToken(req.authorization.value)]
  {
    if !Present(req.authorization) then None
    else
      var token := BearerToken(req.authorization.value);
      if token in be.sessions then Some(be.sessions[token]) else None
  }

  predicate IsAdmin(be: Backend, user: string) {
    user in be.roles && be.roles[user] == "admin"
  }

  /** The guard's verdict: answered already, or admitted as an admin. */
  datatype Gate = Answered(reply: Reply) | Admitted(caller: string)

  /** The checks both functions run before reading the body: a preflight
      is answered first, then an unauthenticated caller gets 401 and an
      authenticated non-admin 403. Exactly admin callers get through. */
  function Guard(req: Request, be: Backend): (g: Gate)
    ensures req.verb == "OPTIONS" ==> g == Answered(PreflightOk)
    ensures req.verb != "OPTIONS" && CallerOf(req, be).None? ==> g == Answered(Unauthorized)
    ensures req.verb != "OPTIONS" && CallerOf(req, be).Some? && !IsAdmin(be, CallerOf(req, be).value) ==>
              g == Answered(Forbidden)
    ensures g.Admitted? <==>
              req.verb != "OPTIONS" && CallerOf(req, be).Some? && IsAdmin(be, CallerOf(req, be).value)
    ensures g.Admitted? ==> Some(g.caller) == CallerOf(req, be)
  {
    if req.verb == "OPTIONS" then Answered(PreflightOk)
    else if !Present(req.authorization) then Answered(Unauthorized)
    else
      var token := BearerToken(req.authorization.value);
      if token !in be.sessions then Answered(Unauthorized)
      else
        var user := be.sessions[token];
        if !IsAdmin(be, user) then Answered(Forbidden) else Admitted(user)
  }

  /** The guard never looks at the body. */
  lemma GuardIgnoresBody(req: Request, be: Backend, body: Option<Body>)
    ensures Guard(req.(body := body), be) == Guard(req, be)
  {
  }

  /** A missing or empty Authorization header is refused with 401 whatever
      the services hold. */
  lemma NoHeaderUnauthorized(req: Request, be: Backend)
    requires req.verb != "OPTIONS" && !Present(req.authorization)
    ensures Guard(req, be) == Answered(Unauthorized)
  {
  }
}
