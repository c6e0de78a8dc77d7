/** `Auth` of the user authentication service (0x03): registration, login,
    sessions and password resets on top of the `DB` users table.

    bcrypt is a pair of parameters: `hashpw(password, salt)` is the stored
    hash, with `salt` the `gensalt()` the call draws, and `checkpw(password,
    stored)` tests a password against a stored column value. `newId` and
    `newToken` are the `uuid4()` strings a call draws. */
module UserAuthService {
  import opened Values
  import opened UserDB

  /** bcrypt's promise: a password checks against every hash made of it. */
  ghost predicate HashesCheck(hashpw: (string, string) -> string, checkpw: (string, Val) -> bool) {
    forall p, salt :: checkpw(p, Str(hashpw(p, salt)))
  }

  /** The row `user` is at index `i` and keeps the id it was given. */
  lemma RowIdFindsRow(users: seq<User>, i: nat)
    requires SequentialIds(users) && i < |users|
    ensures FirstRowWith(users, Id, users[i].id) == Some(i)
  {
    SequentialIdFinds(users, i);
  }

  /** A column other than `id` written in one row keeps the ids in order. */
  lemma SetKeepsIds(users: seq<User>, i: nat, f: Field, v: Val)
    requires SequentialIds(users) && i < |users| && f != Id
    ensures SequentialIds(users[i := Set(users[i], f, v)])
  {
    assert Get(Set(users[i], f, v), Id) == Get(users[i], Id);
  }

  /** A value no row held, once written to row `i`, finds row `i`. */
  lemma {:induction false} WrittenValueFindsRow(users: seq<User>, i: nat, f: Field, v: Val)
    requires i < |users| && FirstRowWith(users, f, v).None?
    ensures FirstRowWith(users[i := Set(users[i], f, v)], f, v) == Some(i)
  {
    var after := users[i := Set(users[i], f, v)];
    var r := FirstRowWith(after, f, v);
    assert Get(after[i], f) == v;
    assert r.Some?;
    assert after[r.value] == users[r.value] || r.value == i;
  }

  /** Replacing a row by one with the same value in column `f` changes no
      lookup on `f`. */
  lemma SameColumnSameFind(users: seq<User>, i: nat, u: User, f: Field, v: Val)
    requires i < |users| && Get(u, f) == Get(users[i], f)
    ensures FirstRowWith(users[i := u], f, v) == FirstRowWith(users, f, v)
  {
    var after := users[i := u];
    assert forall j :: 0 <= j < |users| ==> Get(after[j], f) == Get(users[j], f);
    var r, r' := FirstRowWith(after, f, v), FirstRowWith(users, f, v);
    if r.Some? && r'.Some? {
      assert r.value == r'.value;
    }
  }

  /** Once the only row holding `v` in column `f` has it cleared to `None`,
      `v` matches no row. */
  lemma {:induction false} ClearedValueFails(users: seq<User>, i: nat, f: Field, v: Val)
    requires i < |users| && v != NoneVal
    requires forall j :: 0 <= j < |users| && j != i ==> Get(users[j], f) != v
    ensures FirstRowWith(users[i := Set(users[i], f, NoneVal)], f, v).None?
  {
    var after := users[i := Set(users[i], f, NoneVal)];
    forall j | 0 <= j < |after| ensures Get(after[j], f) != v {
      if j != i {
        assert after[j] == users[j];
      }
    }
  }

  /** After a reset, a token that only the reset row held matches no row. */
  lemma {:induction false} ConsumedTokenFails(users: seq<User>, i: nat, hash: Val, token: Val)
    requires i < |users| && token != NoneVal
    requires forall j :: 0 <= j < |users| && j != i ==> users[j].resetToken != token
    ensures FirstRowWith(users[i := users[i].(hashedPassword := hash, resetToken := NoneVal)], ResetToken, token).None?
  {
    var after := users[i := users[i].(hashedPassword := hash, resetToken := NoneVal)];
    forall j | 0 <= j < |after| ensures Get(after[j], ResetToken) != token {
      if j != i {
        assert after[j] == users[j];
      }
    }
  }

  class Auth {
    const db: DB
    const hashpw: (string, string) -> string
    const checkpw: (string, Val) -> bool

    /** The table's ids are 1, 2, ... in row order, as `add_user` numbers
        them; no operation of `Auth` writes the `id` column. */
    ghost predicate Valid()
      reads db
    {
      SequentialIds(db.users)
    }

    /** `__init__`: a fresh, empty database. */
    constructor (hashpw: (string, string) -> string, checkpw: (string, Val) -> bool)
      ensures fresh(db) && db.users == [] && Valid()
      ensures this.hashpw == hashpw && this.checkpw == checkpw
    {
      db := new DB();
      this.hashpw := hashpw;
      this.checkpw := checkpw;
    }

    /** `register_user`: `ValueError` when a row already has the email;
        otherwise a new row with the hashed password, which then is the row
        the email finds. */
    method RegisterUser(email: string, password: string, salt: string) returns (r: Py<User>)
      requires Valid()
      modifies db
      ensures Valid()
      ensures FirstRowWith(old(db.users), Email, Str(email)).Some? ==>
        r == Raise(ValueError) && db.users == old(db.users)
      ensures FirstRowWith(old(db.users), Email, Str(email)).None? ==>
        && r == Ret(User(Int(|old(db.users)| + 1), Str(email), Str(hashpw(password, salt)), NoneVal, NoneVal))
        && db.users == old(db.users) + [r.value]
        && FirstRowWith(db.users, Email, Str(email)) == Some(|old(db.users)|)
    {
      FindByOne(db.users, "email", Str(email));
      var found := db.FindUserBy([("email", Str(email))]);
      if found.Ret? {
        return Raise(ValueError);
      }
      var hashed := hashpw(password, salt);
      NextIdSequential(db.users);
      FirstRowWithAppend(db.users, User(Int(|db.users| + 1), Str(email), Str(hashed), NoneVal, NoneVal), Email, Str(email));
      var user := db.AddUser(email, hashed);
      return Ret(user);
    }

    /** `valid_login`: false for an unknown email, otherwise bcrypt's verdict
        on the first row with that email. */
    method ValidLogin(email: string, password: string) returns (ok: bool)
      ensures FirstRowWith(db.users, Email, Str(email)).None? ==> !ok
      ensures FirstRowWith(db.users, Email, Str(email)).Some? ==>
        ok == checkpw(password, db.users[FirstRowWith(db.users, Email, Str(email)).value].hashedPassword)
    {
      FindByOne(db.users, "email", Str(email));
      var found := db.FindUserBy([("email", Str(email))]);
      if found.Raise? {
        return false;
      }
      ok := checkpw(password, db.users[found.value].hashedPassword);
    }

    /** `create_session`: `None` for an unknown email; otherwise the new id is
        written to the first row with that email and returned. */
    method CreateSession(email: string, newId: string) returns (r: Option<string>)
      requires Valid()
      modifies db
      ensures Valid()
      ensures FirstRowWith(old(db.users), Email, Str(email)).None? ==> r.None? && db.users == old(db.users)
      ensures FirstRowWith(old(db.users), Email, Str(email)).Some? ==>
        var i := FirstRowWith(old(db.users), Email, Str(email)).value;
        r == Some(newId) && db.users == old(db.users)[i := old(db.users)[i].(sessionId := Str(newId))]
    {
      FindByOne(db.users, "email", Str(email));
      var found := db.FindUserBy([("email", Str(email))]);
      if found.Raise? {
        return None;
      }
      var i := found.value;
      RowIdFindsRow(db.users, i);
      SetKeepsIds(db.users, i, SessionId, Str(newId));
      var _ := db.UpdateUser(db.users[i].id, [("session_id", Str(newId))]);
      return Some(newId);
    }

    /** `get_user_from_session_id`: the first row holding the session id, and
        no user for a missing id or one no row holds. */
    method GetUserFromSessionId(sessionId: Option<string>) returns (r: Option<User>)
      ensures sessionId.None? ==> r.None?
      ensures sessionId.Some? ==>
        match FirstRowWith(db.users, SessionId, Str(sessionId.value))
        case None => r.None?
        case Some(i) => r == Some(db.users[i])
    {
      if sessionId.None? {
        return None;
      }
      FindByOne(db.users, "session_id", Str(sessionId.value));
      var found := db.FindUserBy([("session_id", Str(sessionId.value))]);
      if found.Raise? {
        return None;
      }
      return Some(db.users[found.value]);
    }

    /** `destroy_session`: nothing for a `None` id, `ValueError` for an id no
        row has, otherwise that row's session id is cleared. */
    method DestroySession(userId: Val) returns (r: Py<()>)
      requires Valid()
      modifies db
      ensures Valid()
      ensures userId == NoneVal ==> r == Ret(()) && db.users == old(db.users)
      ensures userId != NoneVal && FirstRowWith(old(db.users), Id, userId).None? ==>
        r == Raise(ValueError) && db.users == old(db.users)
      ensures userId != NoneVal && FirstRowWith(old(db.users), Id, userId).Some? ==>
        var i := FirstRowWith(old(db.users), Id, userId).value;
        r == Ret(()) && db.users == old(db.users)[i := old(db.users)[i].(sessionId := NoneVal)]
    {
      if userId == NoneVal {
        return Ret(());
      }
      var first := FirstRowWith(db.users, Id, userId);
      if first.Some? {
        SetKeepsIds(db.users, first.value, SessionId, NoneVal);
      }
      r := db.UpdateUser(userId, [("session_id", NoneVal)]);
    }

    /** `get_reset_password_token`: `ValueError` for an unknown email;
        otherwise the new token is written to the first row with that email
        and returned. */
    method GetResetPasswordToken(email: string, newToken: string) returns (r: Py<string>)
      requires Valid()
      modifies db
      ensures Valid()
      ensures FirstRowWith(old(db.users), Email, Str(email)).None? ==>
        r == Raise(ValueError) && db.users == old(db.users)
      ensures FirstRowWith(old(db.users), Email, Str(email)).Some? ==>
        var i := FirstRowWith(old(db.users), Email, Str(email)).value;
        r == Ret(newToken) && db.users == old(db.users)[i := old(db.users)[i].(resetToken := Str(newToken))]
    {
      FindByOne(db.users, "email", Str(email));
      var found := db.FindUserBy([("email", Str(email))]);
      if found.Raise? {
        return Raise(ValueError);
      }
      var i := found.value;
      RowIdFindsRow(db.users, i);
      SetKeepsIds(db.users, i, ResetToken, Str(newToken));
      var _ := db.UpdateUser(db.users[i].id, [("reset_token", Str(newToken))]);
      return Ret(newToken);
    }

    /** `update_password`: `ValueError` when no row holds the token;
        otherwise the first row holding it gets the new hash and loses its
        token. A `None` token matches the first row without a token. */
    method UpdatePassword(resetToken: Val, password: string, salt: string) returns (r: Py<()>)
      requires Valid()
      modifies db
      ensures Valid()
      ensures FirstRowWith(old(db.users), ResetToken, resetToken).None? ==>
        r == Raise(ValueError) && db.users == old(db.users)
      ensures FirstRowWith(old(db.users), ResetToken, resetToken).Some? ==>
        var i := FirstRowWith(old(db.users), ResetToken, resetToken).value;
        && r == Ret(())
        && db.users == old(db.users)[i := old(db.users)[i].(hashedPassword := Str(hashpw(password, salt)), resetToken := NoneVal)]
    {
      FindByOne(db.users, "reset_token", resetToken);
      var found := db.FindUserBy([("reset_token", resetToken)]);
      if found.Raise? {
        return Raise(ValueError);
      }
      var i := found.value;
      var hashed := hashpw(password, salt);
      RowIdFindsRow(db.users, i);
      SetKeepsIds(db.users, i, HashedPassword, Str(hashed));
      SetKeepsIds(db.users[i := Set(db.users[i], HashedPassword, Str(hashed))], i, ResetToken, NoneVal);
      var row := db.users[i];
      var kwargs := [("hashed_password", Str(hashed)), ("reset_token", NoneVal)];
      calc {
        ApplyUpdates(row, kwargs);
        ApplyUpdates(Set(row, HashedPassword, Str(hashed)), kwargs[1..]);
        { assert kwargs[1..][1..] == []; }
        (Ret(()), Set(Set(row, HashedPassword, Str(hashed)), ResetToken, NoneVal));
      }
      var _ := db.UpdateUser(row.id, kwargs);
      return Ret(());
    }
  }

  /** A newly registered user can log in with the password they registered. */
  method RegisterThenLogin(auth: Auth, email: string, password: string, salt: string) returns (ok: bool)
    requires auth.Valid() && HashesCheck(auth.hashpw, auth.checkpw)
    requires FirstRowWith(auth.db.users, Email, Str(email)).None?
    modifies auth.db
    ensures ok
  {
    var user := auth.RegisterUser(email, password, salt);
    ok := auth.ValidLogin(email, password);
  }

  /** A session id no row held before is, after `create_session`, resolved to
      the row of the email it was created for. */
  method CreateThenResolve(auth: Auth, email: string, newId: string) returns (user: Option<User>)
    requires auth.Valid()
    requires FirstRowWith(auth.db.users, Email, Str(email)).Some?
    requires FirstRowWith(auth.db.users, SessionId, Str(newId)).None?
    modifies auth.db
    ensures user.Some? && user.value.email == Str(email) && user.value.sessionId == Str(newId)
  {
    var i := FirstRowWith(auth.db.users, Email, Str(email)).value;
    WrittenValueFindsRow(auth.db.users, i, SessionId, Str(newId));
    var sessionId := auth.CreateSession(email, newId);
    user := auth.GetUserFromSessionId(sessionId);
  }

  /** A reset token works once: after `update_password` it matches no row,
      and the new password logs in. */
  method ResetTokenSingleUse(auth: Auth, email: string, newToken: string, password: string, salt: string)
    returns (reused: Py<()>, ok: bool)
    requires auth.Valid() && HashesCheck(auth.hashpw, auth.checkpw)
    requires FirstRowWith(auth.db.users, Email, Str(email)).Some?
    requires FirstRowWith(auth.db.users, ResetToken, Str(newToken)).None?
    modifies auth.db
    ensures reused == Raise(ValueError) && ok
  {
    var i := FirstRowWith(auth.db.users, Email, Str(email)).value;
    WrittenValueFindsRow(auth.db.users, i, ResetToken, Str(newToken));
    var token := auth.GetResetPasswordToken(email, newToken);
    var hashed := Str(auth.hashpw(password, salt));
    var before := auth.db.users;
    var first := auth.UpdatePassword(Str(newToken), password, salt);
    SameColumnSameFind(before, i, before[i].(hashedPassword := hashed, resetToken := NoneVal), Email, Str(email));
    ConsumedTokenFails(before, i, hashed, Str(newToken));
    reused := auth.UpdatePassword(Str(newToken), password, salt);
    ok := auth.ValidLogin(email, password);
  }

  /** A session destroyed through the user's id no longer resolves: after
      `create_session` and `destroy_session`, the id finds no user. */
  method CreateThenDestroy(auth: Auth, email: string, newId: string) returns (user: Option<User>)
    requires auth.Valid()
    requires FirstRowWith(auth.db.users, Email, Str(email)).Some?
    requires FirstRowWith(auth.db.users, SessionId, Str(newId)).None?
    modifies auth.db
    ensures user.None?
  {
    var i := FirstRowWith(auth.db.users, Email, Str(email)).value;
    var sessionId := auth.CreateSession(email, newId);
    var created := auth.db.users;
    assert forall j :: 0 <= j < |created| && j != i ==> Get(created[j], SessionId) != Str(newId);
    RowIdFindsRow(created, i);
    ClearedValueFails(created, i, SessionId, Str(newId));
    var destroyed := auth.DestroySession(created[i].id);
    user := auth.GetUserFromSessionId(sessionId);
  }
}
