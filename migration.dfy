/** The `remove_role_from_users_table` migration. `up` copies each user's
    `role` column into `user_roles` (skipping names the catalog lacks and
    pairs already present), then drops the column; `down` adds the column
    back with default 'User' and writes each user's first role in join
    order back into it. */
module RemoveRoleMigration {
  import opened Wrappers
  import opened Db

  /** A `users` row as the migration reads it: its id and `role` column. */
  datatype LegacyUser = LegacyUser(id: string, role: string)

  /** The tables the migration reads and writes. */
  class MigrationDb {
    var users: seq<LegacyUser>
    const roles: seq<Role>
    var userRoles: seq<UserRole>
    /** Whether `users` has its `role` column. */
    var hasRoleColumn: bool

    constructor (users: seq<LegacyUser>, roles: seq<Role>, userRoles: seq<UserRole>, hasRoleColumn: bool)
      ensures this.users == users && this.roles == roles && this.userRoles == userRoles
      ensures this.hasRoleColumn == hasRoleColumn
    {
      this.users := users;
      this.roles := roles;
      this.userRoles := userRoles;
      this.hasRoleColumn := hasRoleColumn;
    }

    /** `up(knex)` at clock `now` (`knex.fn.now()`). */
    method Up(now: Timestamp)
      requires hasRoleColumn
      modifies this
      ensures users == old(users) && !hasRoleColumn
      ensures userRoles == UpRows(users, RoleMap(roles), old(userRoles), now)
    {
      var roleMap := RoleMap(roles);
      var i := 0;
      while i < |users|
        invariant 0 <= i <= |users|
        invariant users == old(users)
        invariant userRoles == UpRows(users[..i], roleMap, old(userRoles), now)
      {
        var user := users[i];
        assert users[..i + 1][..i] == users[..i];
        if user.role in roleMap && roleMap[user.role] != "" {
          var roleId := roleMap[user.role];
          if !HasPair(userRoles, user.id, roleId) {
            userRoles := userRoles + [UserRole(user.id, roleId, now)];
          }
        }
        i := i + 1;
      }
      assert users[..|users|] == users;
      hasRoleColumn := false;
    }

    /** `down(knex)`: no `user_roles` row is deleted. */
    method Down()
      requires !hasRoleColumn
      modifies this
      ensures hasRoleColumn && userRoles == old(userRoles)
      ensures |users| == |old(users)|
      ensures forall i | 0 <= i < |users| ::
                users[i].id == old(users)[i].id && users[i].role == RestoredRole(userRoles, roles, users[i].id)
    {
      var before := users;
      users := seq(|before|, i requires 0 <= i < |before| => LegacyUser(before[i].id, "User"));
      hasRoleColumn := true;
      var userRoleMap, order := CollectFirstRoles(JoinNames(userRoles, roles));
      var j := 0;
      while j < |order|
        invariant 0 <= j <= |order|
        invariant hasRoleColumn && userRoles == old(userRoles)
        invariant |users| == |old(users)|
        invariant forall k | 0 <= k < |users| ::
                    users[k].id == old(users)[k].id &&
                    users[k].role == (if users[k].id in order[..j] then userRoleMap[users[k].id] else "User")
      {
        assert forall k :: k in order[..j + 1] <==> k in order[..j] || k == order[j];
        users := SetRole(users, order[j], userRoleMap[order[j]]);
        j := j + 1;
      }
      assert order[..|order|] == order;
    }
  }

  /** The first loop of `down`: fill the Map with the first name listed
      for each user; `order` is the Map's insertion order. */
  method CollectFirstRoles(joined: seq<(string, string)>) returns (userRoleMap: map<string, string>, order: seq<string>)
    ensures userRoleMap == FirstWins(joined)
    ensures forall k :: k in userRoleMap <==> k in order
  {
    userRoleMap := map[];
    order := [];
    var i := 0;
    while i < |joined|
      invariant 0 <= i <= |joined|
      invariant userRoleMap == FirstWins(joined[..i])
      invariant forall k :: k in userRoleMap <==> k in order
    {
      assert joined[..i + 1][..i] == joined[..i];
      var (userId, roleName) := joined[i];
      if userId !in userRoleMap {
        userRoleMap := userRoleMap[userId := roleName];
        order := order + [userId];
      }
      i := i + 1;
    }
    assert joined[..|joined|] == joined;
  }

  /** `new Map(roles.map(r => [r.name, r.id]))`: a later role with the same
      name overwrites an earlier one. */
  function RoleMap(roles: seq<Role>): (m: map<string, string>)
    ensures forall n :: n in m <==> exists q | q in roles :: q.name == n
    ensures forall n | n in m :: exists q | q in roles :: q.name == n && q.id == m[n]
  {
    if |roles| == 0 then map[]
    else
      var init := roles[..|roles| - 1];
      var last := roles[|roles| - 1];
      assert forall q :: q in roles <==> q in init || q == last by {
        assert roles == init + [last];
      }
      RoleMap(init)[last.name := last.id]
  }

  /** With unique names the map sends each catalog name to its role's id. */
  lemma RoleMapOfUniqueNames(roles: seq<Role>, q: Role)
    requires UniqueRoleNames(roles) && q in roles
    ensures RoleMap(roles)[q.name] == q.id
  {
    var m := RoleMap(roles);
    var q' :| q' in roles && q'.name == q.name && q'.id == m[q.name];
    var i :| 0 <= i < |roles| && roles[i] == q;
    var j :| 0 <= j < |roles| && roles[j] == q';
    assert i == j;
  }

  /** The `.where(user_id).where(role_id).first()` lookup succeeds. */
  predicate HasPair(rows: seq<UserRole>, userId: string, roleId: string) {
    exists x | x in rows :: x.userId == userId && x.roleId == roleId
  }

  /** The user's role names a catalog role whose id is not empty. */
  predicate Eligible(u: LegacyUser, roleMap: map<string, string>) {
    u.role in roleMap && roleMap[u.role] != ""
  }

  /** One iteration of `up`'s loop. */
  function UpStep(rows: seq<UserRole>, roleMap: map<string, string>, u: LegacyUser, now: Timestamp)
    : seq<UserRole>
  {
    if Eligible(u, roleMap) && !HasPair(rows, u.id, roleMap[u.role])
    then rows + [UserRole(u.id, roleMap[u.role], now)]
    else rows
  }

  /** `user_roles` after `up`'s loop has visited the users in order. */
  function UpRows(users: seq<LegacyUser>, roleMap: map<string, string>, rows: seq<UserRole>, now: Timestamp)
    : seq<UserRole>
  {
    if |users| == 0 then rows
    else UpStep(UpRows(users[..|users| - 1], roleMap, rows, now), roleMap, users[|users| - 1], now)
  }

  /** Every user whose role the catalog knows ends up holding it. */
  lemma {:induction false} UpCovers(users: seq<LegacyUser>, roleMap: map<string, string>, rows: seq<UserRole>,
                                    now: Timestamp, u: LegacyUser)
    requires u in users && Eligible(u, roleMap)
    ensures HasPair(UpRows(users, roleMap, rows, now), u.id, roleMap[u.role])
  {
    var init := users[..|users| - 1];
    var last := users[|users| - 1];
    var before := UpRows(init, roleMap, rows, now);
    if u == last {
      if !HasPair(before, u.id, roleMap[u.role]) {
        assert UpRows(users, roleMap, rows, now)[|before|] == UserRole(u.id, roleMap[u.role], now);
      }
    } else {
      assert users == init + [last];
      assert u in init;
      UpCovers(init, roleMap, rows, now, u);
      var x :| x in before && x.userId == u.id && x.roleId == roleMap[u.role];
      assert x in UpRows(users, roleMap, rows, now);
    }
  }

  /** Every row `up` adds comes from a user whose role the catalog knows. */
  lemma {:induction false} UpOnlyFromUsers(users: seq<LegacyUser>, roleMap: map<string, string>,
                                           rows: seq<UserRole>, now: Timestamp)
    ensures forall x | x in UpRows(users, roleMap, rows, now) ::
              x in rows ||
              exists u | u in users :: Eligible(u, roleMap) && x == UserRole(u.id, roleMap[u.role], now)
  {
    if |users| > 0 {
      var init := users[..|users| - 1];
      var last := users[|users| - 1];
      UpOnlyFromUsers(init, roleMap, rows, now);
      assert forall u | u in init :: u in users;
    }
  }

  /** `up` keeps the rows already there, in place, and only appends. */
  lemma {:induction false} UpKeepsOld(users: seq<LegacyUser>, roleMap: map<string, string>,
                                      rows: seq<UserRole>, now: Timestamp)
    ensures |rows| <= |UpRows(users, roleMap, rows, now)|
    ensures UpRows(users, roleMap, rows, now)[..|rows|] == rows
  {
    if |users| > 0 {
      UpKeepsOld(users[..|users| - 1], roleMap, rows, now);
    }
  }

  /** `up` never creates a second row for a pair. */
  lemma {:induction false} UpNoDuplicates(users: seq<LegacyUser>, roleMap: map<string, string>,
                                          rows: seq<UserRole>, now: Timestamp)
    requires UniquePairs(rows)
    ensures UniquePairs(UpRows(users, roleMap, rows, now))
  {
    if |users| > 0 {
      var init := users[..|users| - 1];
      var last := users[|users| - 1];
      var before := UpRows(init, roleMap, rows, now);
      UpNoDuplicates(init, roleMap, rows, now);
      if Eligible(last, roleMap) && !HasPair(before, last.id, roleMap[last.role]) {
        UniquePairsAppend(before, UserRole(last.id, roleMap[last.role], now));
      }
    }
  }

  /** The (user_id, role name) pairs one row contributes to the join. */
  function RowNames(x: UserRole, roles: seq<Role>): (pairs: seq<(string, string)>)
    ensures forall p :: p in pairs <==> exists q | q in roles :: q.id == x.roleId && p == (x.userId, q.name)
  {
    var matches := RolesWithId(roles, x.roleId);
    var pairs := seq(|matches|, i requires 0 <= i < |matches| => (x.userId, matches[i].name));
    assert forall p :: p in pairs <==> exists q | q in roles :: q.id == x.roleId && p == (x.userId, q.name) by {
      forall p | p in pairs ensures exists q | q in roles :: q.id == x.roleId && p == (x.userId, q.name) {
        var i :| 0 <= i < |pairs| && pairs[i] == p;
        assert matches[i] in matches;
      }
      forall p | exists q | q in roles :: q.id == x.roleId && p == (x.userId, q.name) ensures p in pairs {
        var q :| q in roles && q.id == x.roleId && p == (x.userId, q.name);
        var i :| 0 <= i < |matches| && matches[i] == q;
        assert pairs[i] == p;
      }
    }
    pairs
  }

  /** `userRoles` joined with `roles`: for each row, in table order, the
      (user_id, role name) pairs of the catalog roles it references. */
  function JoinNames(rows: seq<UserRole>, roles: seq<Role>): (pairs: seq<(string, string)>)
    ensures forall p :: p in pairs <==>
              exists x, q | x in rows && q in roles :: q.id == x.roleId && p == (x.userId, q.name)
  {
    if |rows| == 0 then []
    else
      var init := rows[..|rows| - 1];
      var last := rows[|rows| - 1];
      assert forall x :: x in rows <==> x in init || x == last by {
        assert rows == init + [last];
      }
      JoinNames(init, roles) + RowNames(last, roles)
  }

  /** The join follows table order: the rows of an earlier part of the table
      contribute their names before those of a later part. */
  lemma {:induction false} JoinNamesAppend(a: seq<UserRole>, b: seq<UserRole>, roles: seq<Role>)
    ensures JoinNames(a + b, roles) == JoinNames(a, roles) + JoinNames(b, roles)
  {
    if b == [] {
      assert a + b == a;
    } else {
      var ab, init, last := a + b, b[..|b| - 1], b[|b| - 1];
      assert ab[..|ab| - 1] == a + init && ab[|ab| - 1] == last;
      assert JoinNames(ab, roles) == JoinNames(a + init, roles) + RowNames(last, roles);
      assert JoinNames(b, roles) == JoinNames(init, roles) + RowNames(last, roles);
      JoinNamesAppend(a, init, roles);
    }
  }

  /** The Map `down` fills with `if (!has) set`: each user's first name. */
  function FirstWins(pairs: seq<(string, string)>): (m: map<string, string>)
    ensures forall k :: k in m <==> exists i | 0 <= i < |pairs| :: pairs[i].0 == k
    ensures forall k | k in m :: exists i | 0 <= i < |pairs| :: pairs[i] == (k, m[k])
  {
    if |pairs| == 0 then map[]
    else
      var init := pairs[..|pairs| - 1];
      var last := pairs[|pairs| - 1];
      var m := FirstWins(init);
      assert forall i | 0 <= i < |init| :: pairs[i] == init[i];
      if last.0 in m then m else m[last.0 := last.1]
  }

  /** The name a key gets is the one of its first pair: later pairs never
      overwrite it. */
  lemma {:induction false} FirstWinsIsFirst(pairs: seq<(string, string)>, k: nat)
    requires k < |pairs| && forall i | 0 <= i < k :: pairs[i].0 != pairs[k].0
    ensures FirstWins(pairs)[pairs[k].0] == pairs[k].1
  {
    var init := pairs[..|pairs| - 1];
    if k < |pairs| - 1 {
      assert init[k] == pairs[k];
      assert forall i | 0 <= i < k :: init[i] == pairs[i];
      FirstWinsIsFirst(init, k);
    } else {
      assert pairs[k].0 !in FirstWins(init) by {
        forall i | 0 <= i < |init| ensures init[i].0 != pairs[k].0 {
          assert init[i] == pairs[i];
        }
      }
    }
  }

  /** The role `down` gives a user: the first name the join lists for it,
      otherwise the column default 'User'. */
  function RestoredRole(rows: seq<UserRole>, roles: seq<Role>, userId: string): (name: string)
    ensures (forall x | x in rows :: x.userId != userId) ==> name == "User"
  {
    var pairs := JoinNames(rows, roles);
    var m := FirstWins(pairs);
    assert forall i | 0 <= i < |pairs| :: exists x | x in rows :: x.userId == pairs[i].0 by {
      forall i | 0 <= i < |pairs| ensures exists x | x in rows :: x.userId == pairs[i].0 {
        assert pairs[i] in pairs;
      }
    }
    if userId in m then m[userId] else "User"
  }

  /** `update users set role = name where id = userId`. */
  function SetRole(users: seq<LegacyUser>, userId: string, name: string): (r: seq<LegacyUser>)
    ensures |r| == |users|
    ensures forall i | 0 <= i < |users| ::
              r[i].id == users[i].id && r[i].role == (if users[i].id == userId then name else users[i].role)
  {
    seq(|users|, i requires 0 <= i < |users| => if users[i].id == userId then LegacyUser(userId, name) else users[i])
  }

  predicate UniqueUserIds(users: seq<LegacyUser>) {
    forall i, j | 0 <= i < j < |users| :: users[i].id != users[j].id
  }

  /** Running `up` on an empty `user_roles` and then `down` gives every user
      whose role the catalog knows that role back, when user ids, role ids
      and role names are unique and no role id is empty. */
  lemma UpThenDownRestoresRole(users: seq<LegacyUser>, roles: seq<Role>, now: Timestamp, u: LegacyUser, q: Role)
    requires UniqueUserIds(users) && UniqueRoleIds(roles) && UniqueRoleNames(roles)
    requires u in users && q in roles && q.name == u.role && q.id != ""
    ensures RestoredRole(UpRows(users, RoleMap(roles), [], now), roles, u.id) == u.role
  {
    var roleMap := RoleMap(roles);
    var rows := UpRows(users, roleMap, [], now);
    RoleMapOfUniqueNames(roles, q);
    UpCovers(users, roleMap, [], now, u);
    UpOnlyFromUsers(users, roleMap, [], now);
    // Every row of this user references q.
    assert forall x | x in rows && x.userId == u.id :: x.roleId == q.id by {
      forall x | x in rows && x.userId == u.id ensures x.roleId == q.id {
        var u' :| u' in users && Eligible(u', roleMap) && x == UserRole(u'.id, roleMap[u'.role], now);
        SameIdSameUser(users, u, u');
      }
    }
    var pairs := JoinNames(rows, roles);
    var x :| x in rows && x.userId == u.id && x.roleId == q.id;
    assert (u.id, q.name) in pairs;
    var m := FirstWins(pairs);
    assert u.id in m;
    var i :| 0 <= i < |pairs| && pairs[i] == (u.id, m[u.id]);
    assert pairs[i] in pairs;
    var x', q' :| x' in rows && q' in roles && q'.id == x'.roleId && pairs[i] == (x'.userId, q'.name);
    SameIdSameRole(roles, q, q');
  }

  lemma SameIdSameUser(users: seq<LegacyUser>, u: LegacyUser, u': LegacyUser)
    requires UniqueUserIds(users) && u in users && u' in users && u.id == u'.id
    ensures u == u'
  {
    var i :| 0 <= i < |users| && users[i] == u;
    var j :| 0 <= j < |users| && users[j] == u';
    assert i == j;
  }

  lemma SameIdSameRole(roles: seq<Role>, q: Role, q': Role)
    requires UniqueRoleIds(roles) && q in roles && q' in roles && q.id == q'.id
    ensures q == q'
  {
    var i :| 0 <= i < |roles| && roles[i] == q;
    var j :| 0 <= j < |roles| && roles[j] == q';
    assert i == j;
  }

  /** A user whose role the catalog lacks gets no row, and `down` then
      leaves the column default. */
  lemma UnknownRoleRestoresDefault(users: seq<LegacyUser>, roles: seq<Role>, now: Timestamp, u: LegacyUser)
    requires UniqueUserIds(users) && u in users
    requires forall q | q in roles :: q.name != u.role
    ensures forall x | x in UpRows(users, RoleMap(roles), [], now) :: x.userId != u.id
    ensures RestoredRole(UpRows(users, RoleMap(roles), [], now), roles, u.id) == "User"
  {
    var roleMap := RoleMap(roles);
    UpOnlyFromUsers(users, roleMap, [], now);
    forall x | x in UpRows(users, roleMap, [], now) ensures x.userId != u.id {
      var u' :| u' in users && Eligible(u', roleMap) && x == UserRole(u'.id, roleMap[u'.role], now);
      if u'.id == u.id {
        SameIdSameUser(users, u, u');
      }
    }
  }
}
