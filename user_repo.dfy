/** `UserRepo`: the `users` table with its not-found and conflict outcomes.
    Every unique violation (23505) becomes "Email already exists"; the
    PostgreSQL driver failures that become InternalServerError are not part
    of the model, except the empty update described at `UpdateUser`. */
module UserRepo {
  import opened Wrappers
  import opened Crypto
  import opened Errors
  import opened Db

  /** `UserUpdate`: the columns an update sets; absent ones are left alone. */
  datatype UserUpdate = UserUpdate(email: Option<string>, passwordHash: Option<PasswordHash>,
                                   tenantId: Field<string>)

  predicate IsEmptyUpdate(u: UserUpdate) {
    u.email.None? && u.passwordHash.None? && u.tenantId.Missing?
  }

  /** The row after `set(u)`: the id and creation date never change, an
      empty update changes nothing, and a null `tenant_id` clears the tenant. */
  function Apply(row: User, u: UserUpdate): (r: User)
    ensures r.id == row.id && r.createdAt == row.createdAt
    ensures IsEmptyUpdate(u) ==> r == row
    ensures u.tenantId.Null? ==> r.tenantId.None?
    ensures u.tenantId.Missing? ==> r.tenantId == row.tenantId
    ensures u.tenantId.Given? ==> r.tenantId == Some(u.tenantId.value)
    ensures u.email.None? ==> r.email == row.email
    ensures u.email.Some? ==> r.email == u.email.value
    ensures u.passwordHash.None? ==> r.passwordHash == row.passwordHash
    ensures u.passwordHash.Some? ==> r.passwordHash == u.passwordHash.value
  {
    var tenant := match u.tenantId
      case Missing => row.tenantId
      case Null => None
      case Given(t) => Some(t);
    User(row.id, tenant, u.email.GetOr(row.email), u.passwordHash.GetOr(row.passwordHash), row.createdAt)
  }

  /** Some row other than `id` already holds the email. */
  predicate EmailTakenByOther(users: seq<User>, email: string, id: string) {
    exists i | 0 <= i < |users| :: users[i].email == email && users[i].id != id
  }

  lemma SameIds(a: seq<User>, b: seq<User>)
    requires |a| == |b| && forall i | 0 <= i < |a| :: a[i].id == b[i].id
    ensures Ids(a) == Ids(b)
  {
    assert forall x | x in Ids(a) :: x in Ids(b) by {
      forall x | x in Ids(a) ensures x in Ids(b) {
        var i :| 0 <= i < |a| && a[i].id == x;
        assert b[i].id == x;
      }
    }
  }

  /** Removing row `k` keeps ids and emails unique and removes exactly its id. */
  lemma RemoveAtKeepsKeys(users: seq<User>, k: nat)
    requires k < |users| && UniqueIds(users) && UniqueEmails(users)
    ensures var after := users[..k] + users[k + 1..];
            UniqueIds(after) && UniqueEmails(after) && Ids(after) == Ids(users) - {users[k].id}
  {
    var after := users[..k] + users[k + 1..];
    assert forall i | 0 <= i < |after| :: after[i] == users[if i < k then i else i + 1];
    assert Ids(after) == Ids(users) - {users[k].id} by {
      forall x | x in Ids(users) - {users[k].id} ensures x in Ids(after) {
        var i :| 0 <= i < |users| && users[i].id == x;
        assert after[if i < k then i else i - 1] == users[i];
      }
    }
  }

  /** `insertUser(input)`: the database picks the fresh `id`. */
  method InsertUser(db: Database, id: string, input: NewUser) returns (r: Result<User, ApiError>)
    requires db.Valid()
    modifies db`users
    ensures db.Valid()
    ensures id in Ids(old(db.users)) || input.email in Emails(old(db.users)) ==>
              r == Err(BadRequest("Email already exists")) && db.users == old(db.users)
    ensures id !in Ids(old(db.users)) && input.email !in Emails(old(db.users)) ==>
              r == Ok(User(id, input.tenantId, input.email, input.passwordHash, input.createdAt)) &&
              db.users == old(db.users) + [r.value]
  {
    if IndexOfId(db.users, id).Some? || IndexOfEmail(db.users, input.email).Some? {
      return Err(BadRequest("Email already exists"));
    }
    var row := User(id, input.tenantId, input.email, input.passwordHash, input.createdAt);
    ghost var before := db.users;
    db.users := db.users + [row];
    assert Ids(before) <= Ids(db.users) by {
      forall x | x in Ids(before) ensures x in Ids(db.users) {
        var i :| 0 <= i < |before| && before[i].id == x;
        assert db.users[i] == before[i];
      }
    }
    r := Ok(row);
  }

  /** `listUsers()`: every row, in table order; nothing changes. */
  function ListUsers(db: Database): (r: seq<User>)
    reads db
    ensures |r| == |db.users| && forall i | 0 <= i < |r| :: r[i] == db.users[i]
  {
    db.users
  }

  /** `getUser(id)`: the row with that id, or NotFoundError("User"). */
  function GetUser(db: Database, id: string): (r: Result<User, ApiError>)
    reads db
    ensures r.Ok? <==> id in Ids(db.users)
    ensures r.Ok? ==> r.value in db.users && r.value.id == id
    ensures r.Err? ==> r.error == NotFound("User")
  {
    match IndexOfId(db.users, id)
    case Some(k) => Ok(db.users[k])
    case None => Err(NotFound("User"))
  }

  /** `getUserByEmail(email)`: absent, not an error, when no row matches. */
  function GetUserByEmail(db: Database, email: string): (r: Option<User>)
    reads db
    ensures r.Some? <==> email in Emails(db.users)
    ensures r.Some? ==> r.value in db.users && r.value.email == email
  {
    match IndexOfEmail(db.users, email)
    case Some(k) => Some(db.users[k])
    case None => None
  }

  /** `updateUser(id, u)`. Kysely renders an update with nothing to set as
      `SET` with an empty column list, which PostgreSQL rejects (42601), so
      the repository answers InternalServerError for it. A missing row is
      NotFoundError; an email held by another row violates the unique
      constraint. Only the supplied columns of the matching row change. */
  method UpdateUser(db: Database, id: string, u: UserUpdate) returns (r: Result<User, ApiError>)
    requires db.Valid()
    modifies db`users
    ensures db.Valid()
    ensures r.Err? ==> db.users == old(db.users)
    ensures IsEmptyUpdate(u) ==> r == Err(InternalServer("Failed to update user"))
    ensures !IsEmptyUpdate(u) && id !in Ids(old(db.users)) ==> r == Err(NotFound("User"))
    ensures !IsEmptyUpdate(u) && id in Ids(old(db.users)) ==>
              var k := IndexOfId(old(db.users), id).value;
              if u.email.Some? && EmailTakenByOther(old(db.users), u.email.value, id)
              then r == Err(BadRequest("Email already exists"))
              else r == Ok(Apply(old(db.users)[k], u)) && db.users == old(db.users)[k := r.value]
  {
    if IsEmptyUpdate(u) {
      return Err(InternalServer("Failed to update user"));
    }
    var found := IndexOfId(db.users, id);
    if found.None? {
      return Err(NotFound("User"));
    }
    var k := found.value;
    if u.email.Some? {
      var holder := IndexOfEmail(db.users, u.email.value);
      if holder.Some? && db.users[holder.value].id != id {
        return Err(BadRequest("Email already exists"));
      }
      assert !EmailTakenByOther(db.users, u.email.value, id) by {
        if holder.Some? {
          assert db.users[holder.value].id == id;
        }
      }
    }
    var row := Apply(db.users[k], u);
    ghost var before := db.users;
    db.users := db.users[k := row];
    SameIds(before, db.users);
    r := Ok(row);
  }

  /** `deleteUser(id)`: removes the row, and ON DELETE CASCADE removes its
      `user_roles` rows; NotFoundError when there is no such row. */
  method DeleteUser(db: Database, id: string) returns (r: Result<(), ApiError>)
    requires db.Valid()
    modifies db`users, db`userRoles
    ensures db.Valid()
    ensures id !in Ids(old(db.users)) ==>
              r == Err(NotFound("User")) && db.users == old(db.users) && db.userRoles == old(db.userRoles)
    ensures id in Ids(old(db.users)) ==>
              var k := IndexOfId(old(db.users), id).value;
              r == Ok(()) && db.users == old(db.users)[..k] + old(db.users)[k + 1..] &&
              db.userRoles == WithoutUser(old(db.userRoles), id)
    ensures GetUser(db, id) == Err(NotFound("User"))
  {
    var found := IndexOfId(db.users, id);
    if found.None? {
      return Err(NotFound("User"));
    }
    var k := found.value;
    RemoveAtKeepsKeys(db.users, k);
    db.users := db.users[..k] + db.users[k + 1..];
    WithoutUserKeepsUnique(db.userRoles, id);
    db.userRoles := WithoutUser(db.userRoles, id);
    r := Ok(());
  }
}
