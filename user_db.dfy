/** `DB` of the user authentication service (0x03): the `users` table, kept
    as a sequence of rows in table order. */
module UserDB {
  import opened Values

  /** The columns of the `users` table. */
  datatype Field = Id | Email | HashedPassword | SessionId | ResetToken

  /** A column value: `None`, an integer or a string (a bcrypt hash is kept
      as a string). */
  datatype Val = NoneVal | Int(n: int) | Str(s: string)

  datatype User = User(id: Val, email: Val, hashedPassword: Val, sessionId: Val, resetToken: Val)

  /** A keyword-argument list, in call order. */
  type Kwargs = seq<(string, Val)>

  /** The column a keyword names, if it names one. */
  function FieldOf(name: string): (f: Option<Field>)
    ensures f == Some(Id) <==> name == "id"
    ensures f == Some(Email) <==> name == "email"
    ensures f == Some(HashedPassword) <==> name == "hashed_password"
    ensures f == Some(SessionId) <==> name == "session_id"
    ensures f == Some(ResetToken) <==> name == "reset_token"
  {
    if name == "id" then Some(Id)
    else if name == "email" then Some(Email)
    else if name == "hashed_password" then Some(HashedPassword)
    else if name == "session_id" then Some(SessionId)
    else if name == "reset_token" then Some(ResetToken)
    else None
  }

  /** `getattr(user, f)` */
  function Get(u: User, f: Field): Val {
    match f
    case Id => u.id
    case Email => u.email
    case HashedPassword => u.hashedPassword
    case SessionId => u.sessionId
    case ResetToken => u.resetToken
  }

  /** `setattr(user, f, v)`: sets that column and no other. */
  function Set(u: User, f: Field, v: Val): (r: User)
    ensures Get(r, f) == v
    ensures forall g :: g != f ==> Get(r, g) == Get(u, g)
  {
    match f
    case Id => u.(id := v)
    case Email => u.(email := v)
    case HashedPassword => u.(hashedPassword := v)
    case SessionId => u.(sessionId := v)
    case ResetToken => u.(resetToken := v)
  }

  /** Index of the first row whose column `f` equals `v`. */
  function FirstRowWith(users: seq<User>, f: Field, v: Val): (r: Option<nat>)
    ensures r.Some? ==> r.value < |users| && Get(users[r.value], f) == v
    ensures r.Some? ==> forall j :: 0 <= j < r.value ==> Get(users[j], f) != v
    ensures r.None? <==> forall j :: 0 <= j < |users| ==> Get(users[j], f) != v
  {
    if users == [] then None
    else if Get(users[0], f) == v then Some(0)
    else
      match FirstRowWith(users[1..], f, v)
      case None => None
      case Some(k) => Some(k + 1)
  }

  /** Keyword `kv` names a column and no row holds its value there. */
  predicate Misses(users: seq<User>, kv: (string, Val)) {
    FieldOf(kv.0).Some? && FirstRowWith(users, FieldOf(kv.0).value, kv.1).None?
  }

  /** What `find_user_by` does, returning the index of the row found. Keys are
      tried in order and the first key with any matching row decides, so
      several keys combine like "or". */
  function FindBy(users: seq<User>, kwargs: Kwargs): (r: Py<nat>)
    ensures r.Ret? ==> r.value < |users|
    ensures r.Raise? ==> r.exc == NoResultFound || r.exc == InvalidRequestError
  {
    if kwargs == [] then Raise(NoResultFound)
    else
      match FieldOf(kwargs[0].0)
      case None => Raise(InvalidRequestError)
      case Some(f) =>
        match FirstRowWith(users, f, kwargs[0].1)
        case Some(i) => Ret(i)
        case None => FindBy(users, kwargs[1..])
  }

  /** Every keyword of `kwargs` names a column and matches no row. */
  ghost predicate AllMiss(users: seq<User>, kwargs: Kwargs) {
    forall j :: 0 <= j < |kwargs| ==> Misses(users, kwargs[j])
  }

  /** `NoResultFound` exactly when every keyword misses, in particular when
      there are no keywords. */
  lemma {:induction false} FindByNoResult(users: seq<User>, kwargs: Kwargs)
    ensures FindBy(users, kwargs) == Raise(NoResultFound) <==> AllMiss(users, kwargs)
  {
    if kwargs != [] {
      FindByNoResult(users, kwargs[1..]);
      assert AllMiss(users, kwargs) <==> Misses(users, kwargs[0]) && AllMiss(users, kwargs[1..]) by {
        if Misses(users, kwargs[0]) && AllMiss(users, kwargs[1..]) {
          forall j | 0 <= j < |kwargs| ensures Misses(users, kwargs[j]) {
            if j > 0 { assert kwargs[j] == kwargs[1..][j - 1]; }
          }
        }
        if AllMiss(users, kwargs) {
          forall j | 0 <= j < |kwargs| - 1 ensures Misses(users, kwargs[1..][j]) {
            assert kwargs[1..][j] == kwargs[j + 1];
          }
        }
      }
    }
  }

  /** Once the keywords before `k` have all missed, keyword `k` decides: a
      non-column raises `InvalidRequestError`, a column with a match returns
      the first row holding the value, and a column without one passes on to
      the keywords after it. */
  lemma {:induction false} FindByDecidedAt(users: seq<User>, kwargs: Kwargs, k: nat)
    requires k < |kwargs| && AllMiss(users, kwargs[..k])
    ensures FindBy(users, kwargs) ==
      match FieldOf(kwargs[k].0)
      case None => Raise(InvalidRequestError)
      case Some(f) =>
        match FirstRowWith(users, f, kwargs[k].1)
        case Some(i) => Ret(i)
        case None => FindBy(users, kwargs[k + 1..])
  {
    if k > 0 {
      assert kwargs[..k][0] == kwargs[0];
      assert Misses(users, kwargs[0]);
      var rest := kwargs[1..];
      var before, all := rest[..k - 1], kwargs[..k];
      forall j | 0 <= j < |before| ensures Misses(users, before[j]) {
        assert before[j] == all[j + 1];
      }
      FindByDecidedAt(users, rest, k - 1);
      assert rest[k - 1] == kwargs[k];
      assert rest[k..] == kwargs[k + 1..];
    } else {
      assert kwargs[1..] == kwargs[k + 1..];
    }
  }

  /** `find_user_by` with one column keyword: the first row holding the value. */
  lemma FindByOne(users: seq<User>, name: string, v: Val)
    requires FieldOf(name).Some?
    ensures FindBy(users, [(name, v)]) ==
      match FirstRowWith(users, FieldOf(name).value, v)
      case Some(i) => Ret(i)
      case None => Raise(NoResultFound)
  {
    assert [(name, v)][1..] == [];
  }

  /** The `setattr` loop of `update_user`: sets each column in order and
      raises `ValueError` at the first keyword that names no column, keeping
      the columns already set. */
  function ApplyUpdates(u: User, kwargs: Kwargs): (r: (Py<()>, User))
    ensures r.0.Raise? ==> r.0.exc == ValueError
    decreases |kwargs|
  {
    if kwargs == [] then (Ret(()), u)
    else
      match FieldOf(kwargs[0].0)
      case None => (Raise(ValueError), u)
      case Some(f) => ApplyUpdates(Set(u, f, kwargs[0].1), kwargs[1..])
  }

  /** `update_user` succeeds exactly when every keyword names a column; a
      column no keyword names keeps its value, even when it raises. */
  lemma {:induction false} ApplyUpdatesFrame(u: User, kwargs: Kwargs, g: Field)
    ensures ApplyUpdates(u, kwargs).0.Ret? <==> forall k :: 0 <= k < |kwargs| ==> FieldOf(kwargs[k].0).Some?
    ensures ApplyUpdates(u, kwargs).0.Raise? ==> ApplyUpdates(u, kwargs).0.exc == ValueError
    ensures (forall k :: 0 <= k < |kwargs| ==> FieldOf(kwargs[k].0) != Some(g)) ==>
      Get(ApplyUpdates(u, kwargs).1, g) == Get(u, g)
    decreases |kwargs|
  {
    if kwargs != [] {
      var f := FieldOf(kwargs[0].0);
      if f.Some? {
        ApplyUpdatesFrame(Set(u, f.value, kwargs[0].1), kwargs[1..], g);
        assert forall k :: 1 <= k < |kwargs| ==> kwargs[k] == kwargs[1..][k - 1];
      }
    }
  }

  /** A column keyword `k` that every keyword up to it names a column for, and
      no later keyword names again, ends up holding the value given for it,
      whether or not a later keyword raises. */
  lemma {:induction false} ApplyUpdatesSets(u: User, kwargs: Kwargs, k: nat)
    requires k < |kwargs|
    requires forall j :: 0 <= j <= k ==> FieldOf(kwargs[j].0).Some?
    requires forall j :: k < j < |kwargs| ==> kwargs[j].0 != kwargs[k].0
    ensures Get(ApplyUpdates(u, kwargs).1, FieldOf(kwargs[k].0).value) == kwargs[k].1
    decreases |kwargs|
  {
    var f := FieldOf(kwargs[0].0).value;
    var rest := kwargs[1..];
    if k == 0 {
      forall j | 0 <= j < |rest| ensures FieldOf(rest[j].0) != Some(f) {
        assert rest[j] == kwargs[j + 1];
      }
      ApplyUpdatesFrame(Set(u, f, kwargs[0].1), rest, f);
    } else {
      assert rest[k - 1] == kwargs[k];
      ApplyUpdatesSets(Set(u, f, kwargs[0].1), rest, k - 1);
    }
  }

  /** The first keyword naming no column stops the loop with `ValueError`;
      the user then holds exactly the writes of the keywords before it. */
  lemma {:induction false} ApplyUpdatesStopsAt(u: User, kwargs: Kwargs, k: nat)
    requires k < |kwargs| && FieldOf(kwargs[k].0).None?
    requires forall j :: 0 <= j < k ==> FieldOf(kwargs[j].0).Some?
    ensures ApplyUpdates(u, kwargs) == (Raise(ValueError), ApplyUpdates(u, kwargs[..k]).1)
    decreases k
  {
    if k > 0 {
      var f := FieldOf(kwargs[0].0).value;
      var rest := kwargs[1..];
      assert forall j :: 0 <= j < k - 1 ==> rest[j] == kwargs[j + 1];
      ApplyUpdatesStopsAt(Set(u, f, kwargs[0].1), rest, k - 1);
      assert kwargs[..k][1..] == rest[..k - 1];
    }
  }

  /** `update_user(id, email="x", bogus=None)`: the email is written before
      `bogus` raises, and it stays written. */
  lemma PartialWriteExample(u: User)
    ensures ApplyUpdates(u, [("email", Str("x")), ("bogus", NoneVal)]) ==
      (Raise(ValueError), u.(email := Str("x")))
  {
    var kwargs := [("email", Str("x")), ("bogus", NoneVal)];
    assert kwargs[1..] == [("bogus", NoneVal)];
    assert FieldOf("bogus").None?;
  }

  /** The id SQLite gives the next inserted row: one more than the largest
      integer id in the table, 1 for an empty table. */
  function NextId(users: seq<User>): (n: int)
    ensures n >= 1
    ensures forall j :: 0 <= j < |users| && users[j].id.Int? ==> users[j].id.n < n
  {
    if users == [] then 1
    else
      var rest := NextId(users[..|users| - 1]);
      var last := users[|users| - 1].id;
      if last.Int? && last.n >= rest then last.n + 1 else rest
  }

  /** Rows numbered 1, 2, ... in table order: the ids `add_user` produces
      when ids are never updated. */
  ghost predicate SequentialIds(users: seq<User>) {
    forall j :: 0 <= j < |users| ==> users[j].id == Int(j + 1)
  }

  lemma {:induction false} NextIdSequential(users: seq<User>)
    requires SequentialIds(users)
    ensures NextId(users) == |users| + 1
  {
    if users != [] {
      NextIdSequential(users[..|users| - 1]);
    }
  }

  /** A row appended with a value no earlier row holds is the first row
      holding it. */
  lemma {:induction false} FirstRowWithAppend(users: seq<User>, u: User, f: Field, v: Val)
    requires FirstRowWith(users, f, v).None? && Get(u, f) == v
    ensures FirstRowWith(users + [u], f, v) == Some(|users|)
  {
    var all := users + [u];
    assert all[|users|] == u;
    var r := FirstRowWith(all, f, v);
    assert r.Some?;
  }

  /** With rows numbered in order, id `i + 1` finds row `i`. */
  lemma SequentialIdFinds(users: seq<User>, i: nat)
    requires SequentialIds(users) && i < |users|
    ensures FirstRowWith(users, Id, Int(i + 1)) == Some(i)
  {
    assert Get(users[i], Id) == Int(i + 1);
  }

  class DB {
    var users: seq<User>

    /** `__init__`: the table is dropped and created afresh. */
    constructor ()
      ensures users == []
    {
      users := [];
    }

    /** `add_user`: appends one row with a fresh id, no session and no reset
        token, and returns it. */
    method AddUser(email: string, hashedPassword: string) returns (user: User)
      modifies this
      ensures user == User(Int(NextId(old(users))), Str(email), Str(hashedPassword), NoneVal, NoneVal)
      ensures users == old(users) + [user]
    {
      user := User(Int(NextId(users)), Str(email), Str(hashedPassword), NoneVal, NoneVal);
      users := users + [user];
    }

    /** `find_user_by`, returning the index of the row found. */
    method FindUserBy(kwargs: Kwargs) returns (r: Py<nat>)
      ensures r == FindBy(users, kwargs)
    {
      var rows := users;
      var k := 0;
      while k < |kwargs|
        invariant 0 <= k <= |kwargs|
        invariant FindBy(rows, kwargs) == FindBy(rows, kwargs[k..])
      {
        var f := FieldOf(kwargs[k].0);
        if f.None? {
          return Raise(InvalidRequestError);
        }
        var i := 0;
        while i < |rows|
          invariant 0 <= i <= |rows|
          invariant forall j :: 0 <= j < i ==> Get(rows[j], f.value) != kwargs[k].1
        {
          if Get(rows[i], f.value) == kwargs[k].1 {
            return Ret(i);
          }
          i := i + 1;
        }
        assert kwargs[k..][1..] == kwargs[k + 1..];
        k := k + 1;
      }
      return Raise(NoResultFound);
    }

    /** `update_user`: `ValueError` for an unknown id; otherwise the `setattr`
        loop on the first row with that id, other rows untouched. */
    method UpdateUser(userId: Val, kwargs: Kwargs) returns (r: Py<()>)
      modifies this
      ensures FirstRowWith(old(users), Id, userId).None? ==> r == Raise(ValueError) && users == old(users)
      ensures FirstRowWith(old(users), Id, userId).Some? ==>
        var i := FirstRowWith(old(users), Id, userId).value;
        var (outcome, row) := ApplyUpdates(old(users)[i], kwargs);
        r == outcome && users == old(users)[i := row]
    {
      FindByOne(users, "id", userId);
      var found := FindUserBy([("id", userId)]);
      if found.Raise? {
        return Raise(ValueError);
      }
      var i := found.value;
      var k := 0;
      while k < |kwargs|
        invariant 0 <= k <= |kwargs|
        invariant |users| == |old(users)| && users == old(users)[i := users[i]]
        invariant ApplyUpdates(old(users)[i], kwargs) == ApplyUpdates(users[i], kwargs[k..])
      {
        var f := FieldOf(kwargs[k].0);
        if f.None? {
          return Raise(ValueError);
        }
        users := users[i := Set(users[i], f.value, kwargs[k].1)];
        assert kwargs[k..][1..] == kwargs[k + 1..];
        k := k + 1;
      }
      return Ret(());
    }
  }
}
