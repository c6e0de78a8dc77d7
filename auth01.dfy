/** `Auth` of the Basic-authentication API (0x01): the path-exemption rule
    with prefixes in either direction, the `Authorization` header accessor
    and the placeholder `current_user`. */
module Auth01 {
  import opened Values
  import opened Strings
  import opened Http

  /** One excluded entry exempts a path that does not end in `/` when either
      is a prefix of the other, or when the entry is a `*` wildcard whose
      text before the `*` is a prefix of the path. */
  predicate EntryExempts(path: string, entry: string) {
    || StartsWith(entry, path)
    || StartsWith(path, entry)
    || (EndsWithChar(entry, '*') && StartsWith(path, DropLast(entry)))
  }

  /** The `for` loop of `require_auth`: true when it returns early. */
  function ScanExcluded(path: string, entries: seq<string>): (r: bool)
    ensures r ==> exists e :: e in entries && EntryExempts(path, e)
  {
    if entries == [] then false
    else EntryExempts(path, entries[0]) || ScanExcluded(path, entries[1..])
  }

  lemma {:induction false} ScanExcludedIff(path: string, entries: seq<string>)
    ensures ScanExcluded(path, entries) <==> exists e :: e in entries && EntryExempts(path, e)
  {
    if entries != [] {
      ScanExcludedIff(path, entries[1..]);
      assert forall e :: e in entries <==> e == entries[0] || e in entries[1..];
    }
  }

  /** `Auth.require_auth`: whether `path` needs authentication given the
      excluded paths (`None` stands for Python's `None`). */
  function RequireAuth(path: Option<string>, excluded: Option<seq<string>>): (r: bool)
    ensures path.None? || excluded.None? || excluded.value == [] ==> r
  {
    if path.None? || excluded.None? || |excluded.value| == 0 then true
    else
      var p, e := path.value, excluded.value;
      if EndsWithChar(p, '/') then p !in e
      else if ScanExcluded(p, e) then false
      else p + "/" !in e
  }

  /** The whole exemption rule: a path ending in `/` is exempt exactly when it
      is listed; any other path exactly when some entry exempts it. */
  lemma RequireAuthExempt(p: string, e: seq<string>)
    requires e != []
    ensures !RequireAuth(Some(p), Some(e)) <==>
      if EndsWithChar(p, '/') then p in e
      else exists x :: x in e && EntryExempts(p, x)
  {
    ScanExcludedIff(p, e);
    if !EndsWithChar(p, '/') && p + "/" in e {
      assert EntryExempts(p, p + "/");
    }
  }

  /** The final `path + "/"` test never decides anything: whenever it would
      succeed, the loop has already returned. */
  lemma SlashSuffixSubsumed(p: string, e: seq<string>)
    requires !EndsWithChar(p, '/') && p + "/" in e
    ensures ScanExcluded(p, e)
  {
    ScanExcludedIff(p, e);
    assert EntryExempts(p, p + "/");
  }

  /** For a path ending in `/` wildcards are never consulted. */
  lemma SlashPathIgnoresWildcard()
    ensures RequireAuth(Some("/a/b/"), Some(["/a/*"]))
  {
    assert "/a/b/" != "/a/*";
  }

  /** A path is exempt when it is a proper prefix of an entry. */
  lemma PrefixOfEntryExempt()
    ensures !RequireAuth(Some("/api"), Some(["/api/v1/status/"]))
  {
    assert EntryExempts("/api", "/api/v1/status/");
  }

  /** `Auth.authorization_header`: the raw `Authorization` value, or `None`
      for a missing request or header. */
  function AuthorizationHeader(request: Option<Request>): (r: Option<string>)
    ensures r.Some? <==> request.Some? && AuthorizationName in request.value.headers
    ensures r.Some? ==> r.value == request.value.headers[AuthorizationName]
  {
    if request.None? then None
    else if AuthorizationName !in request.value.headers then None
    else Some(request.value.headers[AuthorizationName])
  }

  /** `Auth.current_user`: the base class knows no user. */
  function CurrentUser(request: Option<Request>): (r: Option<User>)
    ensures r.None?
  {
    None
  }
}
