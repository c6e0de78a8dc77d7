/** `before_request` of the Basic-authentication API (0x01): the decision
    taken before every route. */
module App01 {
  import opened Values
  import opened Http
  import Auth01

  /** What `before_request` does: let the request through or abort it. */
  datatype Gate = Proceed | Abort(status: int)

  /** The paths the API leaves open. */
  const Excluded: seq<string> := ["/api/v1/status/", "/api/v1/unauthorized/", "/api/v1/forbidden/"]

  /** `before_request`. `authEnabled` says whether `auth` is set (it is when
      `AUTH_TYPE` selects Basic authentication); `currentUser` is that auth
      object's `current_user`. */
  function BeforeRequest(authEnabled: bool, request: Request, currentUser: Request -> Option<User>): (g: Gate)
    ensures g.Abort? ==> g.status == 401 || g.status == 403
  {
    if !authEnabled then Proceed
    else if !Auth01.RequireAuth(Some(request.path), Some(Excluded)) then Proceed
    else if Auth01.AuthorizationHeader(Some(request)).None? then Abort(401)
    else if currentUser(request).None? then Abort(403)
    else Proceed
  }

  /** The four outcomes of a guarded request, each tied to its cause. */
  lemma GateOutcomes(authEnabled: bool, request: Request, currentUser: Request -> Option<User>)
    ensures var g := BeforeRequest(authEnabled, request, currentUser);
      var guarded := authEnabled && Auth01.RequireAuth(Some(request.path), Some(Excluded));
      && (g == Abort(401) <==> guarded && AuthorizationName !in request.headers)
      && (g == Abort(403) <==> guarded && AuthorizationName in request.headers && currentUser(request).None?)
      && (g == Proceed <==> !guarded || (AuthorizationName in request.headers && currentUser(request).Some?))
  {
  }

  /** A request is never refused as forbidden without an `Authorization`
      header: the header test comes first. */
  lemma NoForbiddenWithoutHeader(authEnabled: bool, request: Request, currentUser: Request -> Option<User>)
    requires AuthorizationName !in request.headers
    ensures BeforeRequest(authEnabled, request, currentUser) != Abort(403)
  {
  }

  /** The three open pages are open with and without their trailing `/`. */
  lemma OpenPagesExempt()
    ensures !Auth01.RequireAuth(Some("/api/v1/status/"), Some(Excluded))
    ensures !Auth01.RequireAuth(Some("/api/v1/status"), Some(Excluded))
    ensures !Auth01.RequireAuth(Some("/api/v1/unauthorized/"), Some(Excluded))
    ensures !Auth01.RequireAuth(Some("/api/v1/unauthorized"), Some(Excluded))
    ensures !Auth01.RequireAuth(Some("/api/v1/forbidden/"), Some(Excluded))
    ensures !Auth01.RequireAuth(Some("/api/v1/forbidden"), Some(Excluded))
  {
    assert Auth01.EntryExempts("/api/v1/status", "/api/v1/status/");
    assert Auth01.EntryExempts("/api/v1/unauthorized", "/api/v1/unauthorized/");
    assert Auth01.EntryExempts("/api/v1/forbidden", "/api/v1/forbidden/");
  }

  /** Because an entry's prefix is exempt too, so is the bare API root. */
  lemma ApiRootExempt()
    ensures !Auth01.RequireAuth(Some("/api"), Some(Excluded))
  {
    assert Auth01.EntryExempts("/api", "/api/v1/status/");
  }
}
