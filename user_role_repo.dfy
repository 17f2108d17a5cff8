/** `UserRoleRepo`: the `user_roles` join table. Assignment is idempotent:
    an existing pair is returned as it is; otherwise the row is inserted and
    the foreign keys decide whether PostgreSQL accepts it. */
module UserRoleRepo {
  import opened Wrappers
  import opened Errors
  import opened Db

  /** Both foreign keys of a prospective row resolve. */
  predicate Resolves(users: seq<User>, roles: seq<Role>, userId: string, roleId: string) {
    userId in Ids(users) && roleId in RoleIds(roles)
  }

  /** The table after `assignRoleToUser(userId, roleId)` at time `now`. */
  function Assigned(rows: seq<UserRole>, users: seq<User>, roles: seq<Role>,
                    userId: string, roleId: string, now: Timestamp): (r: seq<UserRole>)
    ensures rows <= r && |r| <= |rows| + 1
    ensures r != rows ==> FindPair(rows, userId, roleId).None? && Resolves(users, roles, userId, roleId)
    ensures r != rows ==> r[|rows|] == UserRole(userId, roleId, now)
  {
    if FindPair(rows, userId, roleId).Some? then rows
    else if Resolves(users, roles, userId, roleId) then rows + [UserRole(userId, roleId, now)]
    else rows
  }

  method AssignRoleToUser(db: Database, userId: string, roleId: string, now: Timestamp)
    returns (r: Result<UserRole, Thrown>)
    requires db.Valid()
    modifies db`userRoles
    ensures db.Valid()
    ensures db.userRoles == Assigned(old(db.userRoles), db.users, db.roles, userId, roleId, now)
    ensures FindPair(old(db.userRoles), userId, roleId).Some? ==>
              r == Ok(old(db.userRoles)[FindPair(old(db.userRoles), userId, roleId).value])
    ensures FindPair(old(db.userRoles), userId, roleId).None? ==>
              if Resolves(db.users, db.roles, userId, roleId)
              then r == Ok(UserRole(userId, roleId, now))
              else r == Err(DbError(ForeignKeyViolation))
  {
    var existing := FindPair(db.userRoles, userId, roleId);
    if existing.Some? {
      return Ok(db.userRoles[existing.value]);
    }
    if !(userId in Ids(db.users) && roleId in RoleIds(db.roles)) {
      return Err(DbError(ForeignKeyViolation));
    }
    var row := UserRole(userId, roleId, now);
    UniquePairsAppend(db.userRoles, row);
    db.userRoles := db.userRoles + [row];
    r := Ok(row);
  }

  /** `getUserRoles(userId)`: the catalog roles the user's rows reference. */
  function GetUserRoles(db: Database, userId: string): (r: seq<Role>)
    reads db
    ensures forall x :: x in r <==>
              x in db.roles && exists i | 0 <= i < |db.userRoles| :: SamePair(db.userRoles[i], userId, x.id)
    ensures db.Valid() ==> Distinct(r)
  {
    var r := JoinRoles(db.userRoles, db.roles, userId);
    assert db.Valid() ==> Distinct(r) by {
      if db.Valid() {
        JoinRolesDistinct(db.userRoles, db.roles, userId);
      }
    }
    r
  }

  method RemoveRoleFromUser(db: Database, userId: string, roleId: string)
    requires db.Valid()
    modifies db`userRoles
    ensures db.Valid()
    ensures db.userRoles == WithoutPair(old(db.userRoles), userId, roleId)
  {
    WithoutPairKeepsUnique(db.userRoles, userId, roleId);
    db.userRoles := WithoutPair(db.userRoles, userId, roleId);
  }

  method RemoveAllRolesFromUser(db: Database, userId: string)
    requires db.Valid()
    modifies db`userRoles
    ensures db.Valid()
    ensures db.userRoles == WithoutUser(old(db.userRoles), userId)
    ensures GetUserRoles(db, userId) == []
    ensures forall other | other != userId :: GetUserRoles(db, other) == old(GetUserRoles(db, other))
  {
    WithoutUserKeepsUnique(db.userRoles, userId);
    ghost var before := db.userRoles;
    db.userRoles := WithoutUser(db.userRoles, userId);
    WithoutUserEmptiesJoin(before, db.roles, userId);
    forall other | other != userId
      ensures JoinRoles(db.userRoles, db.roles, other) == JoinRoles(before, db.roles, other)
    {
      WithoutUserKeepsOthers(before, db.roles, userId, other);
    }
  }

  /** Assigning twice is assigning once: the second call finds the row. */
  lemma AssignIdempotent(rows: seq<UserRole>, users: seq<User>, roles: seq<Role>,
                         userId: string, roleId: string, t1: Timestamp, t2: Timestamp)
    ensures var once := Assigned(rows, users, roles, userId, roleId, t1);
            Assigned(once, users, roles, userId, roleId, t2) == once
  {
    var once := Assigned(rows, users, roles, userId, roleId, t1);
    if once != rows {
      assert SamePair(once[|rows|], userId, roleId);
    }
  }

  /** The table invariants survive an assignment. */
  lemma AssignKeepsInvariants(rows: seq<UserRole>, users: seq<User>, roles: seq<Role>,
                              userId: string, roleId: string, now: Timestamp)
    requires UniquePairs(rows) && ReferencesResolve(rows, users, roles)
    ensures var after := Assigned(rows, users, roles, userId, roleId, now);
            UniquePairs(after) && ReferencesResolve(after, users, roles)
  {
    if FindPair(rows, userId, roleId).None? && Resolves(users, roles, userId, roleId) {
      UniquePairsAppend(rows, UserRole(userId, roleId, now));
    }
  }

  /** When both keys resolve, afterwards the user holds the role. */
  lemma AssignGrantsRole(rows: seq<UserRole>, users: seq<User>, roles: seq<Role>,
                         userId: string, roleId: string, now: Timestamp, role: Role)
    requires Resolves(users, roles, userId, roleId)
    requires role in roles && role.id == roleId
    ensures role in JoinRoles(Assigned(rows, users, roles, userId, roleId, now), roles, userId)
  {
    var after := Assigned(rows, users, roles, userId, roleId, now);
    var found := FindPair(rows, userId, roleId);
    if found.Some? {
      assert SamePair(after[found.value], userId, role.id);
    } else {
      assert SamePair(after[|rows|], userId, role.id);
    }
  }

  /** Assigning to one user leaves every other user's roles alone. */
  lemma AssignKeepsOthers(rows: seq<UserRole>, users: seq<User>, roles: seq<Role>,
                          userId: string, roleId: string, now: Timestamp, other: string)
    requires other != userId
    ensures JoinRoles(Assigned(rows, users, roles, userId, roleId, now), roles, other) ==
            JoinRoles(rows, roles, other)
  {
    if FindPair(rows, userId, roleId).None? && Resolves(users, roles, userId, roleId) {
      JoinRolesAppend(rows, roles, other, UserRole(userId, roleId, now));
    }
  }

  /** A user with no rows who is assigned a role holds exactly that role. */
  lemma AssignToFreshUser(rows: seq<UserRole>, users: seq<User>, roles: seq<Role>,
                          userId: string, role: Role, now: Timestamp)
    requires forall i | 0 <= i < |rows| :: rows[i].userId != userId
    requires userId in Ids(users) && role in roles && UniqueRoleIds(roles)
    ensures Assigned(rows, users, roles, userId, role.id, now) == rows + [UserRole(userId, role.id, now)]
    ensures JoinRoles(Assigned(rows, users, roles, userId, role.id, now), roles, userId) == [role]
  {
    assert role.id in RoleIds(roles) by {
      var k :| 0 <= k < |roles| && roles[k] == role;
    }
    JoinRolesOfUnreferenced(rows, roles, userId);
    assert FindPair(rows, userId, role.id).None?;
    JoinRolesAppend(rows, roles, userId, UserRole(userId, role.id, now));
    var only := RolesWithId(roles, role.id);
    AtMostOneRoleWithId(roles, role.id);
    assert role in only;
    assert only == [role];
  }

  /** Deleting a pair revokes exactly that role from that user. */
  lemma RemoveRoleRevokes(rows: seq<UserRole>, roles: seq<Role>, userId: string, roleId: string, x: Role)
    ensures x.id == roleId ==> x !in JoinRoles(WithoutPair(rows, userId, roleId), roles, userId)
    ensures x.id != roleId ==>
              (x in JoinRoles(WithoutPair(rows, userId, roleId), roles, userId) <==> x in JoinRoles(rows, roles, userId))
  {
    var after := WithoutPair(rows, userId, roleId);
    if x.id != roleId && x in JoinRoles(rows, roles, userId) {
      var i :| 0 <= i < |rows| && SamePair(rows[i], userId, x.id);
      assert rows[i] in after;
    }
  }
}
