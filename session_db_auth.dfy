/** `SessionDBAuth` of the Session-authentication API (0x02): every session
    is also saved as a `UserSession(user_id, session_id)` record, and lookups
    and logouts go to those records instead of the dictionary. */
module SessionDBAuth {
  import opened Values
  import opened Http
  import Auth02
  import opened SessionAuth
  import opened SessionExpAuth

  /** The persisted `UserSession` model. */
  datatype UserSession = UserSession(userId: string, sessionId: string)

  /** The saved `UserSession` records, in storage order. */
  class UserSessionStore {
    var records: seq<UserSession>

    constructor ()
      ensures records == []
    {
      records := [];
    }
  }

  /** Index of the first record of session `sessionId`. */
  function FirstRecord(records: seq<UserSession>, sessionId: string): (r: Option<nat>)
    ensures r.Some? ==> r.value < |records| && records[r.value].sessionId == sessionId
    ensures r.Some? ==> forall j :: 0 <= j < r.value ==> records[j].sessionId != sessionId
    ensures r.None? <==> forall j :: 0 <= j < |records| ==> records[j].sessionId != sessionId
  {
    if records == [] then None
    else if records[0].sessionId == sessionId then Some(0)
    else
      match FirstRecord(records[1..], sessionId)
      case None => None
      case Some(k) => Some(k + 1)
  }

  /** The user of the first record of `sessionId`, if any. */
  function RecordedUser(records: seq<UserSession>, sessionId: string): (r: Option<string>)
    ensures r.Some? ==> UserSession(r.value, sessionId) in records
    ensures r.None? ==> forall rec :: rec in records ==> rec.sessionId != sessionId
  {
    match FirstRecord(records, sessionId)
    case None => None
    case Some(i) => Some(records[i].userId)
  }

  /** The records with the one at index `i` removed. */
  function RemoveAt(records: seq<UserSession>, i: nat): (r: seq<UserSession>)
    requires i < |records|
    ensures |r| == |records| - 1
    ensures forall j :: 0 <= j < i ==> r[j] == records[j]
    ensures forall j :: i <= j < |r| ==> r[j] == records[j + 1]
  {
    records[..i] + records[i + 1..]
  }

  /** A record appended for a session id no earlier record has is the one a
      lookup of that id finds. */
  lemma {:induction false} RecordedAfterAppend(records: seq<UserSession>, userId: string, sessionId: string)
    requires FirstRecord(records, sessionId).None?
    ensures RecordedUser(records + [UserSession(userId, sessionId)], sessionId) == Some(userId)
  {
    var all := records + [UserSession(userId, sessionId)];
    var r := FirstRecord(all, sessionId);
    assert all[|records|].sessionId == sessionId;
    assert r.Some?;
  }

  /** After the only record of a session is removed, the session is gone. */
  lemma {:induction false} GoneAfterRemove(records: seq<UserSession>, sessionId: string)
    requires FirstRecord(records, sessionId).Some?
    requires forall j :: 0 <= j < |records| && j != FirstRecord(records, sessionId).value ==>
      records[j].sessionId != sessionId
    ensures RecordedUser(RemoveAt(records, FirstRecord(records, sessionId).value), sessionId).None?
  {
    var i := FirstRecord(records, sessionId).value;
    var rest := RemoveAt(records, i);
    forall j | 0 <= j < |rest| ensures rest[j].sessionId != sessionId {
      if j < i {
        assert rest[j] == records[j];
      } else {
        assert rest[j] == records[j + 1];
      }
    }
  }

  class SessionDBAuth {
    /** The `SessionExpAuth` this object extends. */
    const exp: SessionExpAuth
    const store: UserSessionStore

    constructor (exp: SessionExpAuth, store: UserSessionStore)
      ensures this.exp == exp && this.store == store
    {
      this.exp := exp;
      this.store := store;
    }

    /** `create_session`: the parent writes the dictionary; a record is saved
        only when the parent returned a non-empty id. */
    method CreateSession(userId: Arg, newId: string, now: int) returns (sessionId: Option<string>)
      modifies exp.base.table, store
      ensures !userId.Text? ==> (sessionId.None?
        && exp.base.table.entries == old(exp.base.table.entries) && store.records == old(store.records))
      ensures userId.Text? ==>
        exp.base.table.entries == old(exp.base.table.entries)[newId := Stamped(userId.s, At(now))]
      ensures userId.Text? && newId == [] ==> sessionId.None? && store.records == old(store.records)
      ensures userId.Text? && newId != [] ==> (sessionId == Some(newId)
        && store.records == old(store.records) + [UserSession(userId.s, newId)])
      ensures userId.Text? && newId != [] && FirstRecord(old(store.records), newId).None? ==>
        RecordedUser(store.records, newId) == Some(userId.s)
    {
      if userId.Null? {
        return None;
      }
      sessionId := exp.CreateSession(userId, newId, now);
      if sessionId.None? || sessionId.value == [] {
        return None;
      }
      store.records := store.records + [UserSession(userId.s, sessionId.value)];
      if FirstRecord(old(store.records), newId).None? {
        RecordedAfterAppend(old(store.records), userId.s, newId);
      }
    }

    /** `user_id_for_session_id`: the user of the first record of the session,
        with no expiry test. */
    method UserIdForSessionId(sessionId: Arg) returns (userId: Option<string>)
      ensures !sessionId.Text? ==> userId.None?
      ensures sessionId.Text? ==> userId == RecordedUser(store.records, sessionId.s)
    {
      if sessionId.Null? {
        return None;
      }
      if !sessionId.Text? {
        return None;
      }
      var records := store.records;
      var i := 0;
      while i < |records|
        invariant 0 <= i <= |records|
        invariant forall j :: 0 <= j < i ==> records[j].sessionId != sessionId.s
      {
        if records[i].sessionId == sessionId.s {
          return Some(records[i].userId);
        }
        i := i + 1;
      }
      return None;
    }

    /** `destroy_session`: removes the first record of the cookie's session
        and nothing else; the dictionary is left as it is. */
    method DestroySession(request: Option<Request>) returns (ok: bool)
      modifies store
      ensures var cookie := Auth02.SessionCookie(request, exp.base.sessionName);
        ok <==> cookie.Some? && FirstRecord(old(store.records), cookie.value).Some?
      ensures !ok ==> store.records == old(store.records)
      ensures ok ==> var cookie := Auth02.SessionCookie(request, exp.base.sessionName).value;
        store.records == RemoveAt(old(store.records), FirstRecord(old(store.records), cookie).value)
    {
      if request.None? {
        return false;
      }
      var sessionId := Auth02.SessionCookie(request, exp.base.sessionName);
      if sessionId.None? {
        return false;
      }
      var first := FirstRecord(store.records, sessionId.value);
      if first.Some? {
        store.records := RemoveAt(store.records, first.value);
        return true;
      }
      return false;
    }
  }
}
