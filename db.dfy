/** The PostgreSQL database the repositories work on: the `users`, `roles`
    and `user_roles` tables with the constraints their migrations declare
    (primary keys, unique email, unique role name, unique (user_id, role_id)
    pair, foreign keys with ON DELETE CASCADE), and the queries over
    `user_roles` that the repositories run. Table order stands for the order
    in which PostgreSQL returns rows. */
module Db {
  import opened Wrappers
  import opened Crypto

  datatype User = User(id: string, tenantId: Option<string>, email: string,
                       passwordHash: PasswordHash, createdAt: Timestamp)

  /** A `users` row before the database assigns its id. */
  datatype NewUser = NewUser(tenantId: Option<string>, email: string,
                             passwordHash: PasswordHash, createdAt: Timestamp)

  datatype Role = Role(id: string, name: string, description: Option<string>)

  datatype UserRole = UserRole(userId: string, roleId: string, createdAt: Timestamp)

  /** The catalog seeded by the create_roles migration. */
  const SeededRoles: seq<Role> := [
    Role("ade3e92d-2790-4541-bcdc-6af441174e24", "Admin", Some("Administrador com acesso total")),
    Role("29c49062-1286-47fc-80cf-a547f6b77ebc", "Manager", Some("Gerente com permissões intermediárias")),
    Role("0eaf6246-d2d6-4cde-ac1c-4821ffc233f8", "User", Some("Usuário padrão"))
  ]

  function Ids(users: seq<User>): set<string> {
    set i | 0 <= i < |users| :: users[i].id
  }

  function Emails(users: seq<User>): set<string> {
    set i | 0 <= i < |users| :: users[i].email
  }

  function RoleIds(roles: seq<Role>): set<string> {
    set i | 0 <= i < |roles| :: roles[i].id
  }

  predicate UniqueIds(users: seq<User>) {
    forall i, j | 0 <= i < j < |users| :: users[i].id != users[j].id
  }

  predicate UniqueEmails(users: seq<User>) {
    forall i, j | 0 <= i < j < |users| :: users[i].email != users[j].email
  }

  predicate UniqueRoleIds(roles: seq<Role>) {
    forall i, j | 0 <= i < j < |roles| :: roles[i].id != roles[j].id
  }

  predicate UniqueRoleNames(roles: seq<Role>) {
    forall i, j | 0 <= i < j < |roles| :: roles[i].name != roles[j].name
  }

  predicate SamePair(x: UserRole, userId: string, roleId: string) {
    x.userId == userId && x.roleId == roleId
  }

  /** The unique constraint on (user_id, role_id). */
  predicate UniquePairs(rows: seq<UserRole>) {
    forall i, j | 0 <= i < j < |rows| :: !SamePair(rows[j], rows[i].userId, rows[i].roleId)
  }

  /** The two foreign keys of `user_roles`. */
  predicate ReferencesResolve(rows: seq<UserRole>, users: seq<User>, roles: seq<Role>) {
    forall x | x in rows :: x.userId in Ids(users) && x.roleId in RoleIds(roles)
  }

  /** The database. The role catalog is read-only for the core. */
  class Database {
    var users: seq<User>
    var userRoles: seq<UserRole>
    const roles: seq<Role>

    ghost predicate Valid()
      reads this
    {
      && UniqueIds(users) && UniqueEmails(users)
      && UniqueRoleIds(roles) && UniqueRoleNames(roles)
      && UniquePairs(userRoles) && ReferencesResolve(userRoles, users, roles)
    }

    constructor (catalog: seq<Role>)
      requires UniqueRoleIds(catalog) && UniqueRoleNames(catalog)
      ensures Valid()
      ensures users == [] && userRoles == [] && roles == catalog
    {
      users := [];
      userRoles := [];
      roles := catalog;
    }
  }

  /** `where("id", "=", id).executeTakeFirst()` on `users`. */
  function IndexOfId(users: seq<User>, id: string): (r: Option<nat>)
    ensures r.None? <==> id !in Ids(users)
    ensures r.Some? ==> r.value < |users| && users[r.value].id == id
  {
    if |users| == 0 then None
    else if users[0].id == id then Some(0)
    else
      var rest := IndexOfId(users[1..], id);
      assert Ids(users) == {users[0].id} + Ids(users[1..]) by {
        forall x | x in Ids(users) ensures x in {users[0].id} + Ids(users[1..]) {
          var i :| 0 <= i < |users| && users[i].id == x;
          if i > 0 { assert users[1..][i - 1].id == x; }
        }
      }
      if rest.None? then None else Some(rest.value + 1)
  }

  /** `where("email", "=", email).executeTakeFirst()` on `users`. */
  function IndexOfEmail(users: seq<User>, email: string): (r: Option<nat>)
    ensures r.None? <==> email !in Emails(users)
    ensures r.Some? ==> r.value < |users| && users[r.value].email == email
  {
    if |users| == 0 then None
    else if users[0].email == email then Some(0)
    else
      var rest := IndexOfEmail(users[1..], email);
      assert Emails(users) == {users[0].email} + Emails(users[1..]) by {
        forall x | x in Emails(users) ensures x in {users[0].email} + Emails(users[1..]) {
          var i :| 0 <= i < |users| && users[i].email == x;
          if i > 0 { assert users[1..][i - 1].email == x; }
        }
      }
      if rest.None? then None else Some(rest.value + 1)
  }

  /** `roleRepo.getRoleByName(name)`: the first role of that name. */
  function GetRoleByName(roles: seq<Role>, name: string): (r: Option<Role>)
    ensures r.Some? ==> r.value in roles && r.value.name == name
    ensures r.None? <==> forall i | 0 <= i < |roles| :: roles[i].name != name
  {
    if |roles| == 0 then None
    else if roles[0].name == name then Some(roles[0])
    else
      var rest := GetRoleByName(roles[1..], name);
      assert forall i | 1 <= i < |roles| :: roles[i] == roles[1..][i - 1];
      rest
  }

  /** Example: every role name of the seeded catalog resolves. */
  lemma SeededRolesResolve(name: string)
    requires name in ["Admin", "Manager", "User"]
    ensures GetRoleByName(SeededRoles, name).Some?
    ensures UniqueRoleIds(SeededRoles) && UniqueRoleNames(SeededRoles)
  {
    assert SeededRoles[0].name == "Admin" && SeededRoles[1].name == "Manager";
    assert SeededRoles[2].name == "User";
  }

  /** The first row holding the pair (user_id, role_id), as
      `.where(user_id).where(role_id).executeTakeFirst()` finds it. */
  function FindPair(rows: seq<UserRole>, userId: string, roleId: string): (r: Option<nat>)
    ensures r.Some? ==> r.value < |rows| && SamePair(rows[r.value], userId, roleId)
    ensures r.None? <==> forall i | 0 <= i < |rows| :: !SamePair(rows[i], userId, roleId)
  {
    if |rows| == 0 then None
    else if SamePair(rows[0], userId, roleId) then Some(0)
    else
      var rest := FindPair(rows[1..], userId, roleId);
      assert forall i | 1 <= i < |rows| :: rows[i] == rows[1..][i - 1];
      if rest.None? then None else Some(rest.value + 1)
  }

  /** Under the primary key no later role shares the first role's id. */
  lemma IdNotRepeated(roles: seq<Role>)
    requires UniqueRoleIds(roles) && |roles| > 0
    ensures forall x | x in roles[1..] :: x.id != roles[0].id
  {
    forall x | x in roles[1..] ensures x.id != roles[0].id {
      var k :| 0 <= k < |roles| - 1 && roles[1..][k] == x;
      assert roles[k + 1] == x;
    }
  }

  /** A catalog without the id yields no role for it. */
  lemma {:induction false} NoRoleWithId(roles: seq<Role>, id: string)
    requires forall x | x in roles :: x.id != id
    ensures RolesWithId(roles, id) == []
  {
    if |roles| > 0 {
      assert roles[0] in roles;
      assert forall x | x in roles[1..] :: x in roles;
      NoRoleWithId(roles[1..], id);
    }
  }

  /** Under the primary key at most one role has a given id. */
  lemma {:induction false} AtMostOneRoleWithId(roles: seq<Role>, id: string)
    requires UniqueRoleIds(roles)
    ensures |RolesWithId(roles, id)| <= 1
  {
    if |roles| > 0 {
      var rest := RolesWithId(roles[1..], id);
      assert UniqueRoleIds(roles[1..]) by {
        forall i, j | 0 <= i < j < |roles| - 1 ensures roles[1..][i].id != roles[1..][j].id {
          assert roles[1..][i] == roles[i + 1] && roles[1..][j] == roles[j + 1];
        }
      }
      AtMostOneRoleWithId(roles[1..], id);
      if roles[0].id == id {
        IdNotRepeated(roles);
        NoRoleWithId(roles[1..], id);
      }
    }
  }

  /** The catalog roles with the given id (at most one under the primary key). */
  function RolesWithId(roles: seq<Role>, id: string): (r: seq<Role>)
    ensures forall x :: x in r <==> x in roles && x.id == id
  {
    if |roles| == 0 then []
    else
      var rest := RolesWithId(roles[1..], id);
      assert forall x :: x in roles <==> x == roles[0] || x in roles[1..];
      if roles[0].id == id then [roles[0]] + rest else rest
  }

  /** `selectFrom("user_roles").innerJoin("roles", role_id = id)
      .selectAll("roles").where(user_id = userId)`: for each row of the
      user, in table order, the catalog role it references. */
  function JoinRoles(rows: seq<UserRole>, roles: seq<Role>, userId: string): (r: seq<Role>)
    ensures forall x :: x in r <==>
              x in roles && exists i | 0 <= i < |rows| :: SamePair(rows[i], userId, x.id)
  {
    if |rows| == 0 then []
    else
      var last := rows[|rows| - 1];
      var rest := JoinRoles(rows[..|rows| - 1], roles, userId);
      assert forall i | 0 <= i < |rows| - 1 :: rows[..|rows| - 1][i] == rows[i];
      rest + (if last.userId == userId then RolesWithId(roles, last.roleId) else [])
  }

  /** Appending a row adds its role at the end of that user's join. */
  lemma JoinRolesAppend(rows: seq<UserRole>, roles: seq<Role>, userId: string, x: UserRole)
    ensures JoinRoles(rows + [x], roles, userId) ==
            JoinRoles(rows, roles, userId) + (if x.userId == userId then RolesWithId(roles, x.roleId) else [])
  {
    assert (rows + [x])[..|rows|] == rows;
  }

  /** The rows that `deleteFrom("user_roles")` keeps when it deletes the pair. */
  function WithoutPair(rows: seq<UserRole>, userId: string, roleId: string): (r: seq<UserRole>)
    ensures forall x :: x in r <==> x in rows && !SamePair(x, userId, roleId)
    ensures forall x :: multiset(r)[x] == if SamePair(x, userId, roleId) then 0 else multiset(rows)[x]
    ensures |r| <= |rows|
  {
    if |rows| == 0 then []
    else
      var last := rows[|rows| - 1];
      var rest := WithoutPair(rows[..|rows| - 1], userId, roleId);
      assert rows == rows[..|rows| - 1] + [last];
      if SamePair(last, userId, roleId) then rest else rest + [last]
  }

  /** Deletion keeps the surviving rows in table order: it distributes over
      concatenation, so each part of the table is filtered in place. */
  lemma {:induction false} WithoutPairAppend(a: seq<UserRole>, b: seq<UserRole>, userId: string, roleId: string)
    ensures WithoutPair(a + b, userId, roleId) == WithoutPair(a, userId, roleId) + WithoutPair(b, userId, roleId)
  {
    if b == [] {
      assert a + b == a;
    } else {
      var init := b[..|b| - 1];
      assert (a + b)[..|a + b| - 1] == a + init;
      WithoutPairAppend(a, init, userId, roleId);
    }
  }

  /** The rows that `deleteFrom("user_roles").where(user_id)` keeps. */
  function WithoutUser(rows: seq<UserRole>, userId: string): (r: seq<UserRole>)
    ensures forall x :: x in r <==> x in rows && x.userId != userId
    ensures forall x :: multiset(r)[x] == if x.userId == userId then 0 else multiset(rows)[x]
    ensures |r| <= |rows|
  {
    if |rows| == 0 then []
    else
      var last := rows[|rows| - 1];
      var rest := WithoutUser(rows[..|rows| - 1], userId);
      assert rows == rows[..|rows| - 1] + [last];
      if last.userId == userId then rest else rest + [last]
  }

  /** Cascade deletion keeps the surviving rows in table order. */
  lemma {:induction false} WithoutUserAppend(a: seq<UserRole>, b: seq<UserRole>, userId: string)
    ensures WithoutUser(a + b, userId) == WithoutUser(a, userId) + WithoutUser(b, userId)
  {
    if b == [] {
      assert a + b == a;
    } else {
      var init := b[..|b| - 1];
      assert (a + b)[..|a + b| - 1] == a + init;
      WithoutUserAppend(a, init, userId);
    }
  }

  /** Deleting a pair that is absent changes nothing. */
  lemma {:induction false} WithoutAbsentPair(rows: seq<UserRole>, userId: string, roleId: string)
    requires FindPair(rows, userId, roleId).None?
    ensures WithoutPair(rows, userId, roleId) == rows
  {
    if |rows| > 0 {
      var init := rows[..|rows| - 1];
      assert FindPair(init, userId, roleId).None? by {
        forall i | 0 <= i < |init| ensures !SamePair(init[i], userId, roleId) {
          assert init[i] == rows[i];
        }
      }
      WithoutAbsentPair(init, userId, roleId);
      var last := rows[|rows| - 1];
      assert !SamePair(last, userId, roleId);
      assert WithoutPair(rows, userId, roleId) == init + [last];
      assert rows == init + [last];
    }
  }

  /** Deleting one user's rows leaves every other user's join as it was. */
  lemma {:induction false} WithoutUserKeepsOthers(rows: seq<UserRole>, roles: seq<Role>, userId: string, other: string)
    requires other != userId
    ensures JoinRoles(WithoutUser(rows, userId), roles, other) == JoinRoles(rows, roles, other)
  {
    if |rows| > 0 {
      var init := rows[..|rows| - 1];
      var last := rows[|rows| - 1];
      WithoutUserKeepsOthers(init, roles, userId, other);
      if last.userId != userId {
        JoinRolesAppend(WithoutUser(init, userId), roles, other, last);
      }
    }
  }

  /** After deleting a user's rows that user's join is empty. */
  lemma WithoutUserEmptiesJoin(rows: seq<UserRole>, roles: seq<Role>, userId: string)
    ensures JoinRoles(WithoutUser(rows, userId), roles, userId) == []
  {
  }

  predicate Distinct<T(==)>(s: seq<T>) {
    forall i, j | 0 <= i < j < |s| :: s[i] != s[j]
  }

  /** Under the table's invariants a user's join lists no role twice. */
  lemma {:induction false} JoinRolesDistinct(rows: seq<UserRole>, roles: seq<Role>, userId: string)
    requires UniquePairs(rows) && UniqueRoleIds(roles)
    ensures Distinct(JoinRoles(rows, roles, userId))
  {
    if |rows| > 0 {
      var init := rows[..|rows| - 1];
      var last := rows[|rows| - 1];
      assert UniquePairs(init);
      JoinRolesDistinct(init, roles, userId);
      var rest := JoinRoles(init, roles, userId);
      var tail := if last.userId == userId then RolesWithId(roles, last.roleId) else [];
      AtMostOneRoleWithId(roles, last.roleId);
      assert |tail| <= 1;
      assert forall x | x in rest :: x !in tail;
      assert Distinct(rest);
      var r := rest + tail;
      forall i, j | 0 <= i < j < |r| ensures r[i] != r[j] {
        if j < |rest| {
          assert r[i] == rest[i] && r[j] == rest[j];
          assert rest[i] != rest[j];
        } else if i < |rest| {
          assert r[i] == rest[i] && r[j] == tail[j - |rest|];
          assert r[i] in rest && r[j] in tail;
        }
      }
    }
  }

  /** A user no row references has no roles. */
  lemma JoinRolesOfUnreferenced(rows: seq<UserRole>, roles: seq<Role>, userId: string)
    requires forall i | 0 <= i < |rows| :: rows[i].userId != userId
    ensures JoinRoles(rows, roles, userId) == []
  {
  }

  /** Appending a row keeps the pair unique exactly when no earlier row has
      its pair. */
  lemma UniquePairsAppend(rows: seq<UserRole>, x: UserRole)
    requires UniquePairs(rows)
    requires forall y | y in rows :: !SamePair(y, x.userId, x.roleId)
    ensures UniquePairs(rows + [x])
  {
    var s := rows + [x];
    forall i, j | 0 <= i < j < |s| ensures !SamePair(s[j], s[i].userId, s[i].roleId) {
      if j == |rows| {
        assert s[i] in rows;
      } else {
        assert s[i] == rows[i] && s[j] == rows[j];
      }
    }
  }

  /** Deleting a pair keeps the remaining pairs unique. */
  lemma {:induction false} WithoutPairKeepsUnique(rows: seq<UserRole>, userId: string, roleId: string)
    requires UniquePairs(rows)
    ensures UniquePairs(WithoutPair(rows, userId, roleId))
  {
    if |rows| > 0 {
      var init := rows[..|rows| - 1];
      var last := rows[|rows| - 1];
      assert UniquePairs(init);
      WithoutPairKeepsUnique(init, userId, roleId);
      if !SamePair(last, userId, roleId) {
        forall y | y in WithoutPair(init, userId, roleId) ensures !SamePair(y, last.userId, last.roleId) {
          var i :| 0 <= i < |init| && init[i] == y;
          assert rows[i] == y;
        }
        UniquePairsAppend(WithoutPair(init, userId, roleId), last);
      }
    }
  }

  /** Deleting a user's rows keeps the remaining pairs unique. */
  lemma {:induction false} WithoutUserKeepsUnique(rows: seq<UserRole>, userId: string)
    requires UniquePairs(rows)
    ensures UniquePairs(WithoutUser(rows, userId))
  {
    if |rows| > 0 {
      var init := rows[..|rows| - 1];
      var last := rows[|rows| - 1];
      assert UniquePairs(init);
      WithoutUserKeepsUnique(init, userId);
      if last.userId != userId {
        forall y | y in WithoutUser(init, userId) ensures !SamePair(y, last.userId, last.roleId) {
          var i :| 0 <= i < |init| && init[i] == y;
          assert rows[i] == y;
        }
        UniquePairsAppend(WithoutUser(init, userId), last);
      }
    }
  }

  /** Under the foreign key, an id absent from `users` has no `user_roles` rows. */
  lemma UnknownUserHasNoRows(rows: seq<UserRole>, users: seq<User>, roles: seq<Role>, id: string)
    requires ReferencesResolve(rows, users, roles) && id !in Ids(users)
    ensures forall i | 0 <= i < |rows| :: rows[i].userId != id
  {
    forall i | 0 <= i < |rows| ensures rows[i].userId != id {
      assert rows[i] in rows;
    }
  }
}
