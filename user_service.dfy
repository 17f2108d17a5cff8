/** `userService`: `create` (validate, hash, apply the tenant and date
    defaults, insert, then assign the role) and `update` (validate, build
    the update from the fields present, hand it to the repository). Both
    translate errors as `TranslateWriteError` describes. `list`, `get` and
    `remove` are the repository's own operations. */
module UserService {
  import opened Wrappers
  import opened Errors
  import opened Crypto
  import opened Zod
  import opened Db
  import opened UserRepo
  import opened UserRoleRepo
  import CreateUserSchema
  import UpdateUserSchema

  /** The tenant of users created without one. */
  const DefaultTenant := "42a401e2-7d75-4859-8538-000363fe1b26"

  /** `input.tenant_id || DefaultTenant`: absent, null and "" give the default. */
  function TenantOrDefault(t: Field<string>): (tenant: string)
    ensures t.Given? && t.value != "" ==> tenant == t.value
    ensures !(t.Given? && t.value != "") ==> tenant == DefaultTenant
    ensures tenant != ""
  {
    if t.Given? && t.value != "" then t.value else DefaultTenant
  }

  /** `create(inputRaw)` at clock `now`; `newId` is the id the database
      assigns and `dateOf` JavaScript's date parser. The row is inserted
      before the role lookup and stays when the lookup fails. */
  method Create(db: Database, raw: JsonObject, dateOf: string -> Option<Timestamp>, newId: string,
                now: Timestamp) returns (r: Result<User, Thrown>)
    requires db.Valid()
    modifies db`users, db`userRoles
    ensures db.Valid()
    ensures CreateUserSchema.Parse(raw, dateOf).Err? ==>
              r == Err(Api(BadRequest("Validation error"))) &&
              db.users == old(db.users) && db.userRoles == old(db.userRoles)
    ensures CreateUserSchema.Parse(raw, dateOf).Ok? &&
            (newId in Ids(old(db.users)) || CreateUserSchema.Parse(raw, dateOf).value.email in Emails(old(db.users))) ==>
              r == Err(Api(BadRequest("Email already exists"))) &&
              db.users == old(db.users) && db.userRoles == old(db.userRoles)
    ensures CreateUserSchema.Parse(raw, dateOf).Ok? &&
            newId !in Ids(old(db.users)) && CreateUserSchema.Parse(raw, dateOf).value.email !in Emails(old(db.users)) ==>
              var input := CreateUserSchema.Parse(raw, dateOf).value;
              var row := User(newId, Some(TenantOrDefault(input.tenantId)), input.email, Hash(input.password),
                              input.createdAt.GetOr(now));
              db.users == old(db.users) + [row] &&
              Verify(input.password, row.passwordHash) &&
              match GetRoleByName(db.roles, "User")
              case None =>
                r == Err(Api(InternalServer("Role User not found"))) && db.userRoles == old(db.userRoles)
              case Some(role) =>
                r == Ok(row) &&
                db.userRoles == old(db.userRoles) + [UserRole(newId, role.id, now)] &&
                GetUserRoles(db, newId) == [role]
  {
    var parsed := CreateUserSchema.Parse(raw, dateOf);
    if parsed.Err? {
      return Err(TranslateWriteError(ZodError));
    }
    var input := parsed.value;
    var newUser := NewUser(Some(TenantOrDefault(input.tenantId)), input.email, Hash(input.password),
                           input.createdAt.GetOr(now));
    var created := InsertUser(db, newId, newUser);
    if created.Err? {
      return Err(TranslateWriteError(Api(created.error)));
    }
    var user := created.value;
    UnknownUserHasNoRows(db.userRoles, old(db.users), db.roles, newId);
    var roleName := if input.role != "" then input.role else "User";
    var role := GetRoleByName(db.roles, roleName);
    if role.None? {
      assert "Role " + roleName + " not found" == "Role User not found";
      return Err(TranslateWriteError(Api(InternalServer("Role " + roleName + " not found"))));
    }
    assert db.users[|db.users| - 1] == user;
    ghost var rowsBefore := db.userRoles;
    var assignment := AssignRoleToUser(db, user.id, role.value.id, now);
    AssignToFreshUser(rowsBefore, db.users, db.roles, user.id, role.value, now);
    r := Ok(user);
  }

  /** The `updateData` object `update` builds: only the fields present in
      the input, the password replaced by its hash; a `role` is dropped. */
  function UpdateOf(input: UpdateUserSchema.UpdateUserInput): (u: UserUpdate)
    ensures IsEmptyUpdate(u) <==> input.email.None? && input.password.None? && input.tenantId.Missing?
    ensures u.email == input.email && u.tenantId == input.tenantId
    ensures u.passwordHash.Some? <==> input.password.Some?
    ensures input.password.Some? ==> Verify(input.password.value, u.passwordHash.value)
  {
    UserUpdate(input.email, if input.password.Some? then Some(Hash(input.password.value)) else None,
               input.tenantId)
  }

  /** `update(id, inputRaw)`: the `updateData` object is built one present
      field at a time, then `updateUser` applies it. */
  method Update(db: Database, id: string, raw: JsonObject) returns (r: Result<User, Thrown>)
    requires db.Valid()
    modifies db`users
    ensures db.Valid()
    ensures r.Err? ==> db.users == old(db.users)
    ensures UpdateUserSchema.Parse(raw).Err? ==> r == Err(Api(BadRequest("Validation error")))
    ensures UpdateUserSchema.Parse(raw).Ok? ==>
              var u := UpdateOf(UpdateUserSchema.Parse(raw).value);
              if IsEmptyUpdate(u) then r == Err(Api(InternalServer("Failed to update user")))
              else if id !in Ids(old(db.users)) then r == Err(Api(NotFound("User")))
              else
                var k := IndexOfId(old(db.users), id).value;
                if u.email.Some? && EmailTakenByOther(old(db.users), u.email.value, id)
                then r == Err(Api(BadRequest("Email already exists")))
                else r == Ok(Apply(old(db.users)[k], u)) && db.users == old(db.users)[k := r.value]
  {
    var parsed := UpdateUserSchema.Parse(raw);
    if parsed.Err? {
      return Err(TranslateWriteError(ZodError));
    }
    var input := parsed.value;
    var email: Option<string> := None;
    var passwordHash: Option<PasswordHash> := None;
    var tenantId: Field<string> := Missing;
    if input.email.Some? {
      email := input.email;
    }
    if input.password.Some? {
      passwordHash := Some(Hash(input.password.value));
    }
    if !input.tenantId.Missing? {
      tenantId := input.tenantId;
    }
    var updateData := UserUpdate(email, passwordHash, tenantId);
    assert updateData == UpdateOf(input);
    var updated := UpdateUser(db, id, updateData);
    if updated.Err? {
      return Err(TranslateWriteError(Api(updated.error)));
    }
    r := Ok(updated.value);
  }

  /** A `role` in the update input never reaches the row. */
  lemma UpdateIgnoresRole(input: UpdateUserSchema.UpdateUserInput, role: Option<string>)
    ensures UpdateOf(input.(role := role)) == UpdateOf(input)
  {
  }

  /** Applying the update changes exactly the supplied columns: the id and
      the creation date never, the password hash only to the hash of a new
      password, the tenant to null only on an explicit null. */
  lemma UpdateTouchesOnlySupplied(row: User, input: UpdateUserSchema.UpdateUserInput)
    ensures var after := Apply(row, UpdateOf(input));
            after.id == row.id && after.createdAt == row.createdAt &&
            (input.email.None? ==> after.email == row.email) &&
            (input.email.Some? ==> after.email == input.email.value) &&
            (input.password.None? ==> after.passwordHash == row.passwordHash) &&
            (input.password.Some? ==> Verify(input.password.value, after.passwordHash)) &&
            (input.tenantId.Missing? ==> after.tenantId == row.tenantId) &&
            (input.tenantId.Null? ==> after.tenantId.None?) &&
            (input.tenantId.Given? ==> after.tenantId == Some(input.tenantId.value))
  {
  }

  /** An update whose only field is `role` passes validation but leaves
      nothing to set, so it ends in InternalServerError. */
  lemma RoleOnlyUpdateIsEmpty(raw: JsonObject)
    requires raw == map["role" := JString("User")]
    ensures UpdateUserSchema.Parse(raw).Ok?
    ensures IsEmptyUpdate(UpdateOf(UpdateUserSchema.Parse(raw).value))
  {
    assert "role" in UpdateUserSchema.Keys;
  }
}
