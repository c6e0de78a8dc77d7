/** `SessionExpAuth` of the Session-authentication API (0x02): sessions that
    expire `session_duration` seconds after their creation. Times are
    integers counting microseconds, the resolution of Python's `datetime`;
    the clock is the parameter `now`. */
module SessionExpAuth {
  import opened Values
  import opened Http
  import Auth02
  import opened SessionAuth

  const MicrosPerSecond: int := 1_000_000

  /** The lookup rule of `user_id_for_session_id` for the raw value found in
      the dictionary. A bare user id (stored by a plain `SessionAuth`) has no
      `.get` and raises. */
  function ExpiringLookup(entry: Option<Entry>, duration: int, now: int): (r: Py<Option<string>>)
    ensures r.Raise? <==> entry.Some? && entry.value.Plain?
    ensures r.Ret? && r.value.Some? ==> entry.Some? && r.value.value == entry.value.userId
    ensures entry.None? ==> r == Ret(None)
    ensures entry.Some? && entry.value.Stamped? && entry.value.createdAt.Missing? ==> r == Ret(None)
    ensures entry.Some? && entry.value.Stamped? && entry.value.createdAt.IntZero? ==>
      r == Ret(Some(entry.value.userId))
  {
    match entry
    case None => Ret(None)
    case Some(Plain(_)) => Raise(AttributeError)
    case Some(Stamped(userId, createdAt)) =>
      match createdAt
      case IntZero => Ret(Some(userId))
      case Missing => Ret(None)
      case At(t) =>
        if t + duration * MicrosPerSecond < now then Ret(None) else Ret(Some(userId))
  }

  /** A session stamped at `t` is valid exactly while `now <= t + duration`:
      still valid at the boundary, expired one microsecond after it. */
  lemma ValidWithinWindow(userId: string, t: int, duration: int, now: int)
    ensures ExpiringLookup(Some(Stamped(userId, At(t))), duration, now) ==
      if now <= t + duration * MicrosPerSecond then Ret(Some(userId)) else Ret(None)
  {
  }

  /** A duration of 0 is not "no limit": the session is valid only up to the
      instant it was created. */
  lemma ZeroDurationExpiresAtOnce(userId: string, t: int, now: int)
    ensures ExpiringLookup(Some(Stamped(userId, At(t))), 0, now).value.Some? <==> now <= t
  {
  }

  /** Expiry is monotone in time: once a lookup finds nothing, every later
      lookup of the same value finds nothing. */
  lemma ExpiryIsMonotone(entry: Option<Entry>, duration: int, now: int, later: int)
    requires now <= later
    requires ExpiringLookup(entry, duration, now) == Ret(None)
    ensures ExpiringLookup(entry, duration, later) == Ret(None)
  {
  }

  /** The `SESSION_DURATION` rule of `__init__`: the parsed integer, or 0 when
      the variable is missing or is not an integer (`None` here). */
  function DurationSetting(parsed: Option<int>): (d: int)
    ensures parsed.None? ==> d == 0
    ensures parsed.Some? ==> d == parsed.value
  {
    match parsed
    case None => 0
    case Some(v) => v
  }

  class SessionExpAuth {
    /** The `SessionAuth` this object extends. */
    const base: SessionAuth
    const sessionDuration: int

    /** `__init__`, with `parsed` the outcome of `int(getenv('SESSION_DURATION'))`. */
    constructor (base: SessionAuth, parsed: Option<int>)
      ensures this.base == base && sessionDuration == DurationSetting(parsed)
    {
      this.base := base;
      sessionDuration := DurationSetting(parsed);
    }

    /** `create_session`: the parent's id, whose value is then replaced by a
        dictionary stamped with the creation time. */
    method CreateSession(userId: Arg, newId: string, now: int) returns (sessionId: Option<string>)
      modifies base.table
      ensures !userId.Text? ==> sessionId.None? && base.table.entries == old(base.table.entries)
      ensures userId.Text? ==> sessionId == Some(newId)
      ensures userId.Text? ==>
        base.table.entries == old(base.table.entries)[newId := Stamped(userId.s, At(now))]
      ensures userId.Text? && sessionDuration >= 0 ==>
        UserIdForSessionId(Text(newId), now) == Ret(Some(userId.s))
    {
      sessionId := base.CreateSession(userId, newId);
      if sessionId.None? {
        return None;
      }
      base.table.entries := base.table.entries[sessionId.value := Stamped(userId.s, At(now))];
    }

    /** `user_id_for_session_id` at time `now`. A non-string id finds no
        value, as no key of the dictionary equals it. */
    function UserIdForSessionId(sessionId: Arg, now: int): (r: Py<Option<string>>)
      reads base.table
      ensures !sessionId.Text? ==> r == Ret(None)
      ensures sessionId.Text? ==> r == ExpiringLookup(Get(base.table.entries, sessionId.s), sessionDuration, now)
    {
      match sessionId
      case Text(s) => ExpiringLookup(Get(base.table.entries, s), sessionDuration, now)
      case _ => Ret(None)
    }

    /** `destroy_session`, inherited from `SessionAuth` but calling this
        class's expiring lookup: an expired session is reported as not found
        and stays in the dictionary. */
    method DestroySession(request: Option<Request>, now: int) returns (r: Py<bool>)
      modifies base.table
      ensures var cookie := Auth02.SessionCookie(request, base.sessionName);
        var found := old(UserIdForSessionId(ArgOf(cookie), now));
        && (found.Raise? ==> r == Raise(found.exc))
        && (found.Ret? ==> r == Ret(found.value.Some?))
        && (r == Ret(true) <==> found.Ret? && found.value.Some?)
        && (r != Ret(true) ==> base.table.entries == old(base.table.entries))
        && (r == Ret(true) ==> base.table.entries == old(base.table.entries) - {cookie.value})
    {
      if request.None? {
        return Ret(false);
      }
      var sessionId := Auth02.SessionCookie(request, base.sessionName);
      var userId := UserIdForSessionId(ArgOf(sessionId), now);
      if userId.Raise? {
        return Raise(userId.exc);
      }
      if userId.value.None? {
        return Ret(false);
      }
      base.table.entries := base.table.entries - {sessionId.value};
      return Ret(true);
    }
  }
}
