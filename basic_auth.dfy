/** `BasicAuth` of the Session-authentication API (0x02): the five stages
    that turn an `Authorization: Basic ...` header into a user. Base64 and
    UTF-8 decoding are parameters: `b64decode` gives `None` where Python's
    `base64.b64decode` raises, `utf8` gives `None` where `bytes.decode`
    raises. */
module BasicAuth {
  import opened Values
  import opened Strings
  import opened Http
  import Auth02

  type Byte = b: int | 0 <= b < 256

  const BasicPrefix: string := "Basic "

  /** `extract_base64_authorization_header` */
  function ExtractBase64AuthorizationHeader(header: Arg): (r: Option<string>)
    ensures r.Some? <==> header.Text? && StartsWith(header.s, BasicPrefix)
  {
    match header
    case Text(h) => if StartsWith(h, BasicPrefix) then Some(RemoveAll(h, BasicPrefix)) else None
    case _ => None
  }

  /** The token after the prefix comes back whole, provided it does not
      itself contain `"Basic "` (the stage removes every occurrence). */
  lemma ExtractToken(t: string)
    requires !Contains(t, BasicPrefix)
    ensures ExtractBase64AuthorizationHeader(Text(BasicPrefix + t)) == Some(t)
  {
    RemoveAllLeading(BasicPrefix, t);
    RemoveAllAbsent(t, BasicPrefix);
  }

  /** The extracted token is never longer than the header after its prefix. */
  lemma ExtractShrinks(h: string)
    requires StartsWith(h, BasicPrefix)
    ensures |ExtractBase64AuthorizationHeader(Text(h)).value| <= |h| - |BasicPrefix|
  {
    assert h == BasicPrefix + h[|BasicPrefix|..];
    RemoveAllLeading(BasicPrefix, h[|BasicPrefix|..]);
    RemoveAllShrinks(h[|BasicPrefix|..], BasicPrefix);
  }

  /** `decode_base64_authorization_header`: `None` for a missing or non-string
      token and for a base64 failure; a UTF-8 failure happens outside the
      `try` and is raised. */
  function DecodeBase64AuthorizationHeader(
    token: Arg, b64decode: string -> Option<seq<Byte>>, utf8: seq<Byte> -> Option<string>): (r: Py<Option<string>>)
    ensures r.Raise? <==> token.Text? && b64decode(token.s).Some? && utf8(b64decode(token.s).value).None?
    ensures r.Raise? ==> r.exc == UnicodeDecodeError
    ensures r == Ret(None) <==> !token.Text? || b64decode(token.s).None?
    ensures (r.Ret? && r.value.Some?) ==> r.value == utf8(b64decode(token.s).value)
  {
    match token
    case Text(t) => (
      match b64decode(t)
      case None => Ret(None)
      case Some(bytes) => (
        match utf8(bytes)
        case None => Raise(UnicodeDecodeError)
        case Some(s) => Ret(Some(s))))
    case _ => Ret(None)
  }

  /** `extract_user_credentials`: split at the first `:`. */
  function ExtractUserCredentials(decoded: Arg): (r: (Option<string>, Option<string>))
    ensures r.0.Some? <==> decoded.Text? && ':' in decoded.s
    ensures r.1.Some? <==> r.0.Some?
    ensures r.0.Some? ==> ':' !in r.0.value && r.0.value + ":" + r.1.value == decoded.s
  {
    match decoded
    case Text(d) =>
      if ':' in d then
        var k := IndexOf(d, ':');
        assert d == d[..k] + ":" + d[k + 1..];
        (Some(d[..k]), Some(d[k + 1..]))
      else (None, None)
    case _ => (None, None)
  }

  /** Splitting undoes joining at a colon-free identifier: a password that
      contains colons is kept whole. */
  lemma CredentialsRoundTrip(email: string, password: string)
    requires ':' !in email
    ensures ExtractUserCredentials(Text(email + ":" + password)) == (Some(email), Some(password))
  {
    var s := email + ":" + password;
    assert s[|email|] == ':';
    var r := ExtractUserCredentials(Text(s));
    var e, p := r.0.value, r.1.value;
    assert s == e + ":" + p;
    assert e == s[..|e|] && email == s[..|email|];
    assert p == s[|e| + 1..] && password == s[|email| + 1..];
  }

  /** Index of the first user whose password is valid. */
  function FirstValid(users: seq<User>, password: string, isValidPassword: (User, string) -> bool): (r: Option<nat>)
    ensures r.Some? ==> r.value < |users| && isValidPassword(users[r.value], password)
    ensures r.Some? ==> forall j :: 0 <= j < r.value ==> !isValidPassword(users[j], password)
    ensures r.None? <==> forall j :: 0 <= j < |users| ==> !isValidPassword(users[j], password)
  {
    if users == [] then None
    else if isValidPassword(users[0], password) then Some(0)
    else
      match FirstValid(users[1..], password, isValidPassword)
      case None => None
      case Some(k) => Some(k + 1)
  }

  /** `user_object_from_credentials`. `search` is `User.search({"email": _})`,
      `Raise` when it raises; `isValidPassword` is `User.is_valid_password`. */
  function UserObjectFromCredentials(
    email: Arg, password: Arg,
    search: string -> Py<seq<User>>, isValidPassword: (User, string) -> bool): (r: Option<User>)
    ensures r.Some? ==> email.Text? && password.Text? && search(email.s).Ret?
    ensures r.Some? ==>
      exists i :: 0 <= i < |search(email.s).value| && r.value == search(email.s).value[i]
        && isValidPassword(r.value, password.s)
        && forall j :: 0 <= j < i ==> !isValidPassword(search(email.s).value[j], password.s)
    ensures (email.Text? && password.Text? && search(email.s).Ret? &&
      exists u :: u in search(email.s).value && isValidPassword(u, password.s)) ==> r.Some?
  {
    if !email.Text? || !password.Text? then None
    else
      match search(email.s)
      case Raise(_) => None
      case Ret(users) =>
        if |users| == 0 then None
        else
          match FirstValid(users, password.s, isValidPassword)
          case None => None
          case Some(i) => Some(users[i])
  }

  /** `BasicAuth.current_user`: the five stages composed. Only the UTF-8
      failure escapes as an exception. */
  function CurrentUser(
    request: Option<Request>, b64decode: string -> Option<seq<Byte>>, utf8: seq<Byte> -> Option<string>,
    search: string -> Py<seq<User>>, isValidPassword: (User, string) -> bool): (r: Py<Option<User>>)
    ensures r.Raise? ==> r.exc == UnicodeDecodeError
    ensures r.Ret? && r.value.Some? ==>
      Auth02.AuthorizationHeader(request).Some? && StartsWith(Auth02.AuthorizationHeader(request).value, BasicPrefix)
  {
    var header := Auth02.AuthorizationHeader(request);
    var token := ExtractBase64AuthorizationHeader(ArgOf(header));
    match DecodeBase64AuthorizationHeader(ArgOf(token), b64decode, utf8)
    case Raise(e) => Raise(e)
    case Ret(decoded) =>
      var cred := ExtractUserCredentials(ArgOf(decoded));
      Ret(UserObjectFromCredentials(ArgOf(cred.0), ArgOf(cred.1), search, isValidPassword))
  }

  /** No header, no user. */
  lemma NoHeaderNoUser(
    request: Option<Request>, b64decode: string -> Option<seq<Byte>>, utf8: seq<Byte> -> Option<string>,
    search: string -> Py<seq<User>>, isValidPassword: (User, string) -> bool)
    requires Auth02.AuthorizationHeader(request).None?
    ensures CurrentUser(request, b64decode, utf8, search, isValidPassword) == Ret(None)
  {
  }

  /** A well-formed header resolves to the first searched user whose password
      verifies, and to no user when none does. */
  lemma CurrentUserEndToEnd(
    request: Request, t: string, bytes: seq<Byte>, email: string, password: string, users: seq<User>,
    b64decode: string -> Option<seq<Byte>>, utf8: seq<Byte> -> Option<string>,
    search: string -> Py<seq<User>>, isValidPassword: (User, string) -> bool)
    requires AuthorizationName in request.headers && request.headers[AuthorizationName] == BasicPrefix + t
    requires !Contains(t, BasicPrefix)
    requires b64decode(t) == Some(bytes) && utf8(bytes) == Some(email + ":" + password)
    requires ':' !in email
    requires search(email) == Ret(users)
    ensures CurrentUser(Some(request), b64decode, utf8, search, isValidPassword) ==
      match FirstValid(users, password, isValidPassword)
      case None => Ret(None)
      case Some(i) => Ret(Some(users[i]))
  {
    ExtractToken(t);
    CredentialsRoundTrip(email, password);
  }

  /** Fail-closed: when the user search raises, nobody is authenticated. */
  lemma SearchFailureIsNoUser(
    request: Request, b64decode: string -> Option<seq<Byte>>, utf8: seq<Byte> -> Option<string>,
    search: string -> Py<seq<User>>, isValidPassword: (User, string) -> bool)
    requires forall e :: search(e).Raise?
    ensures CurrentUser(Some(request), b64decode, utf8, search, isValidPassword).Ret?
      ==> CurrentUser(Some(request), b64decode, utf8, search, isValidPassword) == Ret(None)
  {
  }
}
