/** `Auth` of the Session-authentication API (0x02): the wildcard-only
    path-exemption rule, the `Authorization` header accessor, the placeholder
    `current_user` and the session-cookie accessor. */
module Auth02 {
  import opened Values
  import opened Strings
  import opened Http

  /** A `*`-suffixed entry whose text before the `*` is a prefix of `path`. */
  predicate WildcardExempts(path: string, entry: string) {
    EndsWithChar(entry, '*') && StartsWith(path, DropLast(entry))
  }

  /** The `for` loop of `require_auth`: true when it returns early. */
  function ScanWildcards(path: string, entries: seq<string>): (r: bool)
    ensures r ==> exists e :: e in entries && WildcardExempts(path, e)
  {
    if entries == [] then false
    else WildcardExempts(path, entries[0]) || ScanWildcards(path, entries[1..])
  }

  lemma {:induction false} ScanWildcardsIff(path: string, entries: seq<string>)
    ensures ScanWildcards(path, entries) <==> exists e :: e in entries && WildcardExempts(path, e)
  {
    if entries != [] {
      ScanWildcardsIff(path, entries[1..]);
      assert forall e :: e in entries <==> e == entries[0] || e in entries[1..];
    }
  }

  /** `Auth.require_auth` of 0x02. */
  function RequireAuth(path: Option<string>, excluded: Option<seq<string>>): (r: bool)
    ensures path.None? || excluded.None? || excluded.value == [] ==> r
  {
    if path.None? || excluded.None? || |excluded.value| == 0 then true
    else
      var p, e := path.value, excluded.value;
      if EndsWithChar(p, '/') && p in e then false
      else if ScanWildcards(p, e) then false
      else p + "/" !in e
  }

  /** The whole exemption rule: exactly three ways to be exempt, matched
      literally and case-sensitively. */
  lemma RequireAuthExempt(p: string, e: seq<string>)
    requires e != []
    ensures !RequireAuth(Some(p), Some(e)) <==>
      || (EndsWithChar(p, '/') && p in e)
      || (exists x :: x in e && WildcardExempts(p, x))
      || p + "/" in e
  {
    ScanWildcardsIff(p, e);
  }

  /** A lone `*` entry exempts every path. */
  lemma StarExemptsEverything(p: string, e: seq<string>)
    requires "*" in e
    ensures !RequireAuth(Some(p), Some(e))
  {
    ScanWildcardsIff(p, e);
    assert WildcardExempts(p, "*");
  }

  /** A path without a trailing `/` that is listed verbatim still needs
      authentication. */
  lemma VerbatimPathNotExempt()
    ensures RequireAuth(Some("/a"), Some(["/a"]))
  {
    assert "/a" + "/" != "/a";
  }

  /** `Auth.authorization_header`: the raw `Authorization` value, or `None`
      for a missing request or header. */
  function AuthorizationHeader(request: Option<Request>): (r: Option<string>)
    ensures r.Some? <==> request.Some? && AuthorizationName in request.value.headers
    ensures r.Some? ==> r.value == request.value.headers[AuthorizationName]
  {
    if request.None? then None
    else if AuthorizationName !in request.value.headers then None
    else Some(request.value.headers[AuthorizationName])
  }

  /** `Auth.current_user`: the base class knows no user. */
  function CurrentUser(request: Option<Request>): (r: Option<User>)
    ensures r.None?
  {
    None
  }

  /** `Auth.session_cookie`: the cookie named by `SESSION_NAME`
      (`sessionName`, `None` when the variable is unset, in which case no
      cookie can match). */
  function SessionCookie(request: Option<Request>, sessionName: Option<string>): (r: Option<string>)
    ensures request.None? || sessionName.None? ==> r.None?
    ensures r.Some? <==> request.Some? && sessionName.Some? && sessionName.value in request.value.cookies
    ensures r.Some? ==> r.value == request.value.cookies[sessionName.value]
  {
    if request.None? then None
    else if sessionName.None? then None
    else if sessionName.value in request.value.cookies then Some(request.value.cookies[sessionName.value])
    else None
  }
}
