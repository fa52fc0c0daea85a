/** The `users` table and the four statements of `UserModel`
    (models/User.js). Users are global: no statement is scoped by owner. */
module UserStore {

  /** One row of `users`. */
  datatype UserRow = UserRow(id: int, username: string, passwordHash: string)

  /** `SELECT id, username`: the projection every query returns. It has no
      digest field, so no query can hand `password_hash` to a caller. */
  datatype PublicUser = PublicUser(id: int, username: string)

  function Public(u: UserRow): PublicUser {
    PublicUser(u.id, u.username)
  }

  /** The WHERE clauses of the three queries. */
  datatype UserCond =
    | ByUsername(username: string)                            // username = ?
    | ByCredentials(username: string, passwordHash: string)   // username = ? AND password_hash = ?
    | ById(id: int)                                           // id = ?

  predicate Matches(c: UserCond, u: UserRow) {
    match c
    case ByUsername(n) => u.username == n
    case ByCredentials(n, h) => u.username == n && u.passwordHash == h
    case ById(id) => u.id == id
  }

  /** `SELECT id, username FROM users WHERE c`, in table order. */
  function Select(rows: seq<UserRow>, c: UserCond): (r: seq<PublicUser>)
    ensures |r| <= |rows|
  {
    if rows == [] then []
    else (if Matches(c, rows[0]) then [Public(rows[0])] else []) + Select(rows[1..], c)
  }

  /** Every matching row appears in the result, projected. */
  lemma {:induction false} SelectComplete(rows: seq<UserRow>, c: UserCond, u: UserRow)
    requires u in rows && Matches(c, u)
    ensures Public(u) in Select(rows, c)
  {
    if rows[0] != u {
      SelectComplete(rows[1..], c, u);
    }
  }

  /** Every result is the projection of a matching row. */
  lemma {:induction false} SelectSound(rows: seq<UserRow>, c: UserCond, p: PublicUser)
    requires p in Select(rows, c)
    ensures exists u :: u in rows && Matches(c, u) && Public(u) == p
  {
    if !(Matches(c, rows[0]) && Public(rows[0]) == p) {
      SelectSound(rows[1..], c, p);
      var u :| u in rows[1..] && Matches(c, u) && Public(u) == p;
      assert u in rows;
    }
  }

  /** The result is empty exactly when no row matches. */
  lemma SelectEmptyIff(rows: seq<UserRow>, c: UserCond)
    ensures Select(rows, c) == [] <==> forall u :: u in rows ==> !Matches(c, u)
  {
    if Select(rows, c) != [] {
      SelectSound(rows, c, Select(rows, c)[0]);
    }
    forall u | u in rows && Matches(c, u) ensures Select(rows, c) != [] {
      SelectComplete(rows, c, u);
    }
  }

  /** Ids are positive, strictly increasing along the table and below the
      next AUTO_INCREMENT value. */
  predicate WellFormed(rows: seq<UserRow>, nextId: int) {
    && 1 <= nextId
    && (forall i :: 0 <= i < |rows| ==> 1 <= rows[i].id < nextId)
    && (forall i, j :: 0 <= i < j < |rows| ==> rows[i].id < rows[j].id)
  }

  /** No two rows share a username. The table itself does not demand it;
      signing up keeps it (see `AuthService.AuthViewModel.Signup`). */
  predicate UniqueUsernames(rows: seq<UserRow>) {
    forall i, j :: 0 <= i < j < |rows| ==> rows[i].username != rows[j].username
  }

  /** `UserModel`: the `users` table and its AUTO_INCREMENT counter. */
  class UserModel {
    var users: seq<UserRow>
    var nextId: int

    ghost predicate Valid()
      reads this
    {
      WellFormed(users, nextId)
    }

    constructor ()
      ensures Valid() && users == [] && nextId == 1
    {
      users := [];
      nextId := 1;
    }

    /** `SELECT id, username FROM users WHERE username = ?` */
    function FindByUsername(username: string): (r: seq<PublicUser>)
      reads this
      ensures forall p :: p in r <==> exists u :: u in users && u.username == username && Public(u) == p
      ensures forall p :: p in r ==> p.username == username
      ensures r == [] <==> forall u :: u in users ==> u.username != username
    {
      var c := ByUsername(username);
      var r := Select(users, c);
      SelectEmptyIff(users, c);
      forall p | p in r ensures exists u :: u in users && u.username == username && Public(u) == p {
        SelectSound(users, c, p);
      }
      forall u | u in users && u.username == username ensures Public(u) in r {
        SelectComplete(users, c, u);
      }
      r
    }

    /** `SELECT id, username FROM users WHERE username = ? AND password_hash = ?` */
    function FindByCredentials(username: string, passwordHash: string): (r: seq<PublicUser>)
      reads this
      ensures forall p :: p in r <==>
        exists u :: u in users && u.username == username && u.passwordHash == passwordHash && Public(u) == p
      ensures forall p :: p in r ==> p.username == username
      ensures r == [] <==> forall u :: u in users ==> !(u.username == username && u.passwordHash == passwordHash)
    {
      var c := ByCredentials(username, passwordHash);
      var r := Select(users, c);
      SelectEmptyIff(users, c);
      forall p | p in r
        ensures exists u :: u in users && u.username == username && u.passwordHash == passwordHash && Public(u) == p
      {
        SelectSound(users, c, p);
      }
      forall u | u in users && u.username == username && u.passwordHash == passwordHash ensures Public(u) in r {
        SelectComplete(users, c, u);
      }
      r
    }

    /** `SELECT id, username FROM users WHERE id = ?` */
    function FindById(userId: int): (r: seq<PublicUser>)
      requires Valid()
      reads this
      ensures |r| <= 1
      ensures forall p :: p in r <==> exists u :: u in users && u.id == userId && Public(u) == p
    {
      SelectByIdAtMostOne(users, userId);
      var r := Select(users, ById(userId));
      forall p | p in r ensures exists u :: u in users && u.id == userId && Public(u) == p {
        SelectSound(users, ById(userId), p);
      }
      forall u | u in users && u.id == userId ensures Public(u) in r {
        SelectComplete(users, ById(userId), u);
      }
      r
    }

    /** `INSERT INTO users (username, password_hash) VALUES (?, ?)`. Returns
        `insertId`. */
    method CreateUser(username: string, passwordHash: string) returns (insertId: int)
      requires Valid()
      modifies this
      ensures Valid()
      ensures insertId == old(nextId)
      ensures users == old(users) + [UserRow(insertId, username, passwordHash)]
      ensures nextId == old(nextId) + 1
    {
      insertId := nextId;
      users := users + [UserRow(insertId, username, passwordHash)];
      nextId := nextId + 1;
    }
  }

  // ---------------------------------------------------------------------
  // Properties of the queries
  // ---------------------------------------------------------------------

  /** Selecting distributes over concatenation. */
  lemma {:induction false} SelectAppend(a: seq<UserRow>, b: seq<UserRow>, c: UserCond)
    ensures Select(a + b, c) == Select(a, c) + Select(b, c)
  {
    if a != [] {
      assert (a + b)[0] == a[0];
      assert (a + b)[1..] == a[1..] + b;
      SelectAppend(a[1..], b, c);
    } else {
      assert a + b == b;
    }
  }

  /** Ids are unique, so `findById` finds at most one user. */
  lemma {:induction false} SelectByIdAtMostOne(rows: seq<UserRow>, id: int)
    requires forall i, j :: 0 <= i < j < |rows| ==> rows[i].id < rows[j].id
    ensures |Select(rows, ById(id))| <= 1
  {
    if rows != [] {
      SelectByIdAtMostOne(rows[1..], id);
      if rows[0].id == id {
        assert forall u :: u in rows[1..] ==> u.id > id;
        SelectEmptyIff(rows[1..], ById(id));
      }
    }
  }

  /** With unique usernames and an injective digest, the credentials query for
      a stored user succeeds only with that user's own password: any other
      password's digest matches no row. */
  lemma WrongPasswordMatchesNothing(rows: seq<UserRow>, hash: string -> string, k: int, password: string, attempt: string)
    requires forall a, b :: hash(a) == hash(b) ==> a == b
    requires UniqueUsernames(rows)
    requires 0 <= k < |rows| && rows[k].passwordHash == hash(password)
    requires attempt != password
    ensures Select(rows, ByCredentials(rows[k].username, hash(attempt))) == []
  {
    var c := ByCredentials(rows[k].username, hash(attempt));
    forall u | u in rows ensures !Matches(c, u) {
      var i :| 0 <= i < |rows| && rows[i] == u;
      if i != k {
        assert i < k || k < i;
      }
    }
    SelectEmptyIff(rows, c);
  }

  /** A user appended under a username no existing row carries is the only row
      its own credentials match. */
  lemma CredentialsOfAppended(rows: seq<UserRow>, row: UserRow)
    requires forall u :: u in rows ==> u.username != row.username
    ensures Select(rows + [row], ByCredentials(row.username, row.passwordHash)) == [Public(row)]
  {
    var c := ByCredentials(row.username, row.passwordHash);
    SelectAppend(rows, [row], c);
    SelectEmptyIff(rows, c);
    assert [row][1..] == [];
  }
}
