/** `SessionAuth` of the Session-authentication API (0x02): sessions kept in
    a dictionary from session id to user id.

    In Python `user_id_by_session_id` is a class attribute, so every
    `SessionAuth`, `SessionExpAuth` and `SessionDBAuth` object reads and
    writes the same dictionary. Here that dictionary is one `SessionTable`
    object which the auth objects hold by reference. */
module SessionAuth {
  import opened Values
  import opened Http
  import Auth02

  /** The `created_at` of an expiring session: missing (`None`), the integer
      `0`, or a time in microseconds. */
  datatype Stamp = Missing | IntZero | At(micros: int)

  /** A value of the shared dictionary: the bare user id `SessionAuth` stores,
      or the `{"user_id", "created_at"}` dictionary `SessionExpAuth` stores. */
  datatype Entry = Plain(userId: string) | Stamped(userId: string, createdAt: Stamp)

  /** `SessionAuth.user_id_by_session_id`, the one dictionary shared by every
      session-based auth object. */
  class SessionTable {
    var entries: map<string, Entry>

    constructor ()
      ensures entries == map[]
    {
      entries := map[];
    }
  }

  /** `dict.get`: the raw value stored under `key`, if any. */
  function Get(entries: map<string, Entry>, key: string): (r: Option<Entry>)
    ensures r.Some? <==> key in entries
    ensures r.Some? ==> r.value == entries[key]
  {
    if key in entries then Some(entries[key]) else None
  }

  class SessionAuth {
    const table: SessionTable
    /** The `SESSION_NAME` setting: the name of the session cookie. */
    const sessionName: Option<string>

    constructor (table: SessionTable, sessionName: Option<string>)
      ensures this.table == table && this.sessionName == sessionName
    {
      this.table := table;
      this.sessionName := sessionName;
    }

    /** `create_session`. `newId` is the `uuid4()` the call draws. */
    method CreateSession(userId: Arg, newId: string) returns (sessionId: Option<string>)
      modifies table
      ensures !userId.Text? ==> sessionId.None? && table.entries == old(table.entries)
      ensures userId.Text? ==> sessionId == Some(newId)
      ensures userId.Text? ==> table.entries == old(table.entries)[newId := Plain(userId.s)]
      ensures userId.Text? ==> UserIdForSessionId(Text(newId)) == Some(Plain(userId.s))
    {
      if userId.Null? {
        return None;
      }
      if !userId.Text? {
        return None;
      }
      table.entries := table.entries[newId := Plain(userId.s)];
      return Some(newId);
    }

    /** `user_id_for_session_id`: the raw stored value, `None` for a missing
        or non-string id. */
    function UserIdForSessionId(sessionId: Arg): (r: Option<Entry>)
      reads table
      ensures r.Some? <==> sessionId.Text? && sessionId.s in table.entries
      ensures r.Some? ==> r.value == table.entries[sessionId.s]
    {
      match sessionId
      case Text(s) => Get(table.entries, s)
      case _ => None
    }

    /** `current_user`: `User.get` (the parameter `userGet`) applied to the
        raw dictionary value under the session cookie. */
    function CurrentUser(request: Option<Request>, userGet: Option<Entry> -> Option<User>): (r: Option<User>)
      reads table
      ensures Auth02.SessionCookie(request, sessionName).None? ==> r.None?
      ensures Auth02.SessionCookie(request, sessionName).Some? ==>
        r == userGet(Get(table.entries, Auth02.SessionCookie(request, sessionName).value))
    {
      var cookie := Auth02.SessionCookie(request, sessionName);
      if cookie.Some? then userGet(Get(table.entries, cookie.value)) else None
    }

    /** `destroy_session`: forget the session named by the request's cookie. */
    method DestroySession(request: Option<Request>) returns (ok: bool)
      modifies table
      ensures var cookie := Auth02.SessionCookie(request, sessionName);
        ok <==> cookie.Some? && cookie.value in old(table.entries)
      ensures !ok ==> table.entries == old(table.entries)
      ensures ok ==> var id := Auth02.SessionCookie(request, sessionName).value;
        table.entries == old(table.entries) - {id} && UserIdForSessionId(Text(id)).None?
    {
      if request.None? {
        return false;
      }
      var sessionId := Auth02.SessionCookie(request, sessionName);
      // The source's `if id is None` tests the built-in `id`, which is never
      // `None`; a missing cookie is caught by the lookup below.
      var userId := UserIdForSessionId(ArgOf(sessionId));
      if userId.None? {
        return false;
      }
      table.entries := table.entries - {sessionId.value};
      return true;
    }
  }

  /** Two auth objects over the one class-level dictionary see each other's
      sessions. */
  method SharedAcrossInstances(userId: string, newId: string, name: Option<string>) returns (seen: Option<Entry>)
    ensures seen == Some(Plain(userId))
  {
    var table := new SessionTable();
    var first := new SessionAuth(table, name);
    var second := new SessionAuth(table, name);
    var created := first.CreateSession(Text(userId), newId);
    seen := second.UserIdForSessionId(Text(newId));
  }
}
