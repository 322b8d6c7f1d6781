/** The users table of `src/lib/db.ts` (`id TEXT PRIMARY KEY, email TEXT UNIQUE NOT NULL,
    role, created_at, last_login_at`) as a map from id to row, with the login upsert, the
    role update and the listing. `CURRENT_TIMESTAMP` and `new Date().toISOString()` are
    given readings. */
module Users {
  import opened Wrappers
  import opened Sorting

  datatype Role = Admin | User

  type Timestamp = string

  /** A row of `users`. */
  datatype UserRow = UserRow(id: string, email: string, role: Role, createdAt: Timestamp, lastLoginAt: Timestamp)

  /** The `DbUser` the functions return. For an existing user it is the `SELECT *` row spread
      into an object, whose column is `created_at`, so its `createdAt` is absent. */
  datatype DbUser = DbUser(id: string, email: string, role: Role, createdAt: Option<Timestamp>, lastLoginAt: Timestamp)

  /** The table's constraints: rows are filed under their id, and no two share an email. */
  ghost predicate WellFormed(rows: map<string, UserRow>) {
    && (forall id :: id in rows ==> rows[id].id == id)
    && (forall a, b :: a in rows && b in rows && a != b ==> rows[a].email != rows[b].email)
  }

  /** `userCount?.count === 0 ? 'admin' : 'user'`: the first user becomes admin. */
  function NewUserRole(count: nat): (role: Role)
    ensures role == Admin <==> count == 0
  {
    if count == 0 then Admin else User
  }

  predicate EmailTaken(rows: map<string, UserRow>, email: string) {
    exists id :: id in rows && rows[id].email == email
  }

  /** The table after a login and what the call returns. */
  datatype Login = Login(rows: map<string, UserRow>, result: Result<DbUser>)

  const EmailConflict := "UNIQUE constraint failed: users.email"

  /** `getOrCreateUser(sub, email)`. A known id only has its `last_login_at` refreshed and is
      returned with its stored role; an unknown id is inserted as admin on an empty table and
      as user otherwise, unless its email is already taken, when the insert fails. The table
      never grows by more than the one row, and a successful call leaves a row for `sub`. */
  function GetOrCreate(rows: map<string, UserRow>, sub: string, email: string, sqlNow: Timestamp, isoNow: Timestamp): (l: Login)
    ensures sub in rows ==> l.rows == rows[sub := rows[sub].(lastLoginAt := sqlNow)]
    ensures sub in rows ==> l.result == Ok(DbUser(rows[sub].id, rows[sub].email, rows[sub].role, None, isoNow))
    ensures sub !in rows && EmailTaken(rows, email) ==> l == Login(rows, Err(EmailConflict))
    ensures sub !in rows && !EmailTaken(rows, email) ==>
              && l.rows == rows[sub := UserRow(sub, email, NewUserRole(|rows|), sqlNow, sqlNow)]
              && l.result == Ok(DbUser(sub, email, NewUserRole(|rows|), Some(isoNow), isoNow))
    ensures rows.Keys <= l.rows.Keys && |l.rows| <= |rows| + 1
    ensures l.result.Ok? ==> sub in l.rows && l.rows[sub].role == l.result.value.role
  {
    if sub in rows then
      var existing := rows[sub];
      Login(rows[sub := existing.(lastLoginAt := sqlNow)], Ok(DbUser(existing.id, existing.email, existing.role, None, isoNow)))
    else
      var role := NewUserRole(|rows|);
      if EmailTaken(rows, email) then Login(rows, Err(EmailConflict))
      else Login(rows[sub := UserRow(sub, email, role, sqlNow, sqlNow)], Ok(DbUser(sub, email, role, Some(isoNow), isoNow)))
  }

  /** A login keeps the table's constraints, and a returned user is the row filed under `sub`. */
  lemma LoginKeepsWellFormed(rows: map<string, UserRow>, sub: string, email: string, sqlNow: Timestamp, isoNow: Timestamp)
    requires WellFormed(rows)
    ensures WellFormed(GetOrCreate(rows, sub, email, sqlNow, isoNow).rows)
    ensures GetOrCreate(rows, sub, email, sqlNow, isoNow).result.Ok? ==>
              GetOrCreate(rows, sub, email, sqlNow, isoNow).result.value.id == sub
  {
    if sub in rows {
      RefreshKeepsWellFormed(rows, sub, sqlNow);
    } else if !EmailTaken(rows, email) {
      InsertKeepsWellFormed(rows, UserRow(sub, email, NewUserRole(|rows|), sqlNow, sqlNow));
    }
  }

  /** Refreshing a row's login time keeps the constraints. */
  lemma RefreshKeepsWellFormed(rows: map<string, UserRow>, sub: string, t: Timestamp)
    requires WellFormed(rows) && sub in rows
    ensures WellFormed(rows[sub := rows[sub].(lastLoginAt := t)])
  {
  }

  /** Filing a new row under its own id keeps the constraints when its email is free. */
  lemma InsertKeepsWellFormed(rows: map<string, UserRow>, row: UserRow)
    requires WellFormed(rows) && row.id !in rows && !EmailTaken(rows, row.email)
    ensures WellFormed(rows[row.id := row])
  {
    var r := rows[row.id := row];
    forall a, b | a in r && b in r && a != b
      ensures r[a].email != r[b].email
    {
      if a == row.id {
        assert rows[b].email != row.email;
      } else if b == row.id {
        assert rows[a].email != row.email;
      }
    }
  }

  /** The first login on an empty table makes an admin. */
  lemma FirstUserIsAdmin(sub: string, email: string, sqlNow: Timestamp, isoNow: Timestamp)
    ensures GetOrCreate(map[], sub, email, sqlNow, isoNow).result == Ok(DbUser(sub, email, Admin, Some(isoNow), isoNow))
  {
  }

  /** Assigning a role touches that user's role and nothing else; an unknown id changes
      nothing. */
  function UpdateRole(rows: map<string, UserRow>, userId: string, role: Role): (r: map<string, UserRow>)
    ensures r.Keys == rows.Keys
    ensures forall id :: id in r && id != userId ==> r[id] == rows[id]
    ensures userId in rows ==> r[userId] == rows[userId].(role := role)
  {
    if userId in rows then rows[userId := rows[userId].(role := role)] else rows
  }

  lemma UpdateRoleKeepsWellFormed(rows: map<string, UserRow>, userId: string, role: Role)
    requires WellFormed(rows)
    ensures WellFormed(UpdateRole(rows, userId, role))
  {
    var r := UpdateRole(rows, userId, role);
    forall a, b | a in r && b in r && a != b
      ensures r[a].email != r[b].email
    {
      assert r[a].email == rows[a].email && r[b].email == rows[b].email;
    }
  }

  /** `ORDER BY created_at DESC`. */
  function NewestCreatedFirst(): (UserRow, UserRow) -> bool {
    (a: UserRow, b: UserRow) => LexLe(b.createdAt, a.createdAt)
  }

  lemma NewestCreatedFirstIsPreorder()
    ensures TotalPreorder(NewestCreatedFirst())
  {
    DescendingByTextIsPreorder(NewestCreatedFirst(), (r: UserRow) => r.createdAt);
  }

  /** `s` lists every row of the table exactly once. */
  ghost predicate ListsAll(rows: map<string, UserRow>, s: seq<UserRow>) {
    && (forall x :: x in s ==> x.id in rows && rows[x.id] == x)
    && (forall id :: id in rows ==> rows[id] in s)
    && NoDuplicates(s)
  }

  lemma ReorderedListing(rows: map<string, UserRow>, s: seq<UserRow>, t: seq<UserRow>)
    requires ListsAll(rows, s) && multiset(t) == multiset(s)
    ensures ListsAll(rows, t)
  {
    forall x ensures x in t <==> x in s {
      assert x in t <==> x in multiset(t);
      assert x in s <==> x in multiset(s);
    }
  }

  /** The `users` table. */
  class UserTable {
    var rows: map<string, UserRow>

    ghost predicate Valid()
      reads this
    {
      WellFormed(rows)
    }

    constructor()
      ensures rows == map[] && Valid()
    {
      rows := map[];
    }

    /** `getOrCreateUser`: the SELECT, then the UPDATE or the COUNT and INSERT. */
    method GetOrCreateUser(sub: string, email: string, sqlNow: Timestamp, isoNow: Timestamp) returns (r: Result<DbUser>)
      requires Valid()
      modifies this
      ensures Login(rows, r) == GetOrCreate(old(rows), sub, email, sqlNow, isoNow)
      ensures Valid()
    {
      LoginKeepsWellFormed(rows, sub, email, sqlNow, isoNow);
      if sub in rows {
        var existing := rows[sub];
        rows := rows[sub := existing.(lastLoginAt := sqlNow)];
        return Ok(DbUser(existing.id, existing.email, existing.role, None, isoNow));
      }
      var count := |rows|;
      var role := NewUserRole(count);
      if EmailTaken(rows, email) {
        return Err(EmailConflict);
      }
      rows := rows[sub := UserRow(sub, email, role, sqlNow, sqlNow)];
      r := Ok(DbUser(sub, email, role, Some(isoNow), isoNow));
    }

    /** `getUser(sub)`. */
    function GetUser(sub: string): (r: Option<UserRow>)
      reads this
      ensures r.Some? <==> sub in rows
      ensures r.Some? ==> r.value == rows[sub]
    {
      if sub in rows then Some(rows[sub]) else None
    }

    /** `updateUserRole(userId, role)`. */
    method UpdateUserRole(userId: string, role: Role)
      requires Valid()
      modifies this
      ensures rows == UpdateRole(old(rows), userId, role)
      ensures Valid()
    {
      UpdateRoleKeepsWellFormed(rows, userId, role);
      if userId in rows {
        rows := rows[userId := rows[userId].(role := role)];
      }
    }

    /** `getAllUsers()`: every row once, newest `created_at` first. */
    method GetAllUsers() returns (users: seq<UserRow>)
      requires Valid()
      ensures ListsAll(rows, users)
      ensures Sorted(users, NewestCreatedFirst())
    {
      var pending := rows.Keys;
      var listed: seq<UserRow> := [];
      while pending != {}
        invariant pending <= rows.Keys
        invariant forall x :: x in listed ==> x.id in rows && rows[x.id] == x
        invariant forall k :: 0 <= k < |listed| ==> listed[k].id in rows.Keys - pending
        invariant forall id :: id in rows && id !in pending ==> rows[id] in listed
        invariant NoDuplicates(listed)
        decreases pending
      {
        var id :| id in pending;
        pending := pending - {id};
        AppendFresh(listed, rows[id], id);
        listed := listed + [rows[id]];
      }
      NewestCreatedFirstIsPreorder();
      users := Sort(listed, NewestCreatedFirst());
      SortSorted(listed, NewestCreatedFirst());
      ReorderedListing(rows, listed, users);
    }
  }

  /** Appending a row that is not yet listed keeps the listing free of duplicates. */
  lemma AppendFresh(listed: seq<UserRow>, x: UserRow, id: string)
    requires NoDuplicates(listed) && forall k :: 0 <= k < |listed| ==> listed[k] != x
    ensures NoDuplicates(listed + [x])
  {
    assert multiset(listed + [x]) == multiset(listed) + multiset{x};
    assert x !in multiset(listed);
  }
}
