# Verified model of an Express RBAC boilerplate

This project is a Dafny model of the core of a multi-tenant Express API with role-based access control. The API uses Kysely on PostgreSQL, zod validation and JWT authentication. The model covers four parts:

- **Request authorisation.** `attachAuth` reads a Bearer token (section 2.1 of RFC 6750) into `req.auth`. `requireRole` then answers 401, 403 or passes the request on.
- **The two stores.** The `users` table with its not-found and conflict outcomes, and the `user_roles` join table with idempotent assignment.
- **The services.** `registerUser`, `login`, `create` and `update` sequence the stores, hash passwords and sign tokens.
- **The pure validators and one data migration.**
  - The validators are the zod request schemas and the UUID check on the `:id` path parameter (section 4 of RFC 9562).
  - The migration, `remove_role_from_users_table`, moves the `role` column into `user_roles` and back.

How the model is laid out:

- **Modules.** Each core source file is one module. The database is one class, `Db.Database`. Its invariant `Valid()` holds the constraints the migrations declare:
  - primary keys;
  - unique email;
  - unique role name;
  - unique (user_id, role_id);
  - foreign keys with ON DELETE CASCADE.
- **Repositories and services** are methods that change that object under `modifies` frames. The read-only queries are functions.
- **Foreign code stays abstract.**
  - bcrypt is `Crypto.Hash`/`Crypto.Verify`.
  - jsonwebtoken is a codec passed in as a parameter. Its only promise is that it parses back what it produced.
  - A token verifies only under the key that signed it and only before its `exp`.
- **Inputs from the outside world are parameters.** These are the clock, the id the database generates, `JWT_SECRET` and JavaScript's date parser.

**The default secrets differ.** When `JWT_SECRET` is unset or empty, the two sides use different fallbacks:

- `signJwt` signs with `"i-am-an-idiot"` (express-rbac-multi-tenant-kysely-zod-errorhandling/src/auth/auth.service.ts:22);
- `attachAuth` verifies with `"dev-secret-change-me"` (express-rbac-multi-tenant-kysely-zod-errorhandling/src/middlewares/auth.ts:26).

The lemmas `Crypto.FallbackSecretsDisagree` and `AuthService.LoginTokenIgnoredWithoutSecret` prove the consequence: every token the service issues is then silently ignored, and every `/users` route answers 401. The model keeps this behaviour as written.

## Model

| member | source | states |
|---|---|---|
| Errors.StatusCode | express-rbac-multi-tenant-kysely-zod-errorhandling/src/errors/api-errors/unauthorized-error.ts:4 | statuses lie in 400..599; 401 exactly for Unauthorized and 403 exactly for Forbidden |
| Errors.TranslateWriteError | express-rbac-multi-tenant-kysely-zod-errorhandling/src/user/user.service.ts:38-46 | a ZodError becomes BadRequest("Validation error") and a unique violation BadRequest("Email already exists"); neither escapes; ApiErrors and other database errors are rethrown unchanged |
| Errors.TranslateLoginError | express-rbac-multi-tenant-kysely-zod-errorhandling/src/auth/auth.service.ts:83-88 | only a ZodError is translated; everything else is rethrown unchanged |
| Crypto.BcryptKey | express-rbac-multi-tenant-kysely-zod-errorhandling/src/auth/auth.service.ts:13-15 | bcrypt reads at most 72 bytes: the key is the password's whole UTF-8 encoding when that fits, and its first 72 bytes otherwise |
| Crypto.Hash | express-rbac-multi-tenant-kysely-zod-errorhandling/src/auth/auth.service.ts:11-15 | the stored hash verifies its password, has cost 10 and commits to at most 72 key bytes |
| Crypto.Verify | express-rbac-multi-tenant-kysely-zod-errorhandling/src/auth/auth.service.ts:17-19 | a digest that verifies a password commits to a prefix of its encoding, and to all of it when shorter than 72 bytes |
| Crypto.ShortPasswordVerifiesOnlyItself | express-rbac-multi-tenant-kysely-zod-errorhandling/src/auth/auth.service.ts:17-19 | for passwords of at most 72 UTF-8 bytes, `verifyPassword(q, hash(p))` holds exactly when q = p |
| Crypto.BytesPastLimitIgnored | express-rbac-multi-tenant-kysely-zod-errorhandling/src/auth/auth.service.ts:13-19 | passwords longer than 72 bytes that agree on their first 72 bytes verify against each other's hash |
| Crypto.TwinPasswords | express-rbac-multi-tenant-kysely-zod-errorhandling/domain/authentication/login.schema.ts:5-6 | example: two distinct 37-character passwords, inside the schemas' 8..70 bound, verify against each other's hash |
| Crypto.VerifyJwt | express-rbac-multi-tenant-kysely-zod-errorhandling/src/middlewares/auth.ts:27 | verification succeeds iff the token parses, was signed with the given key and has not expired; it then yields the signed claims |
| Crypto.VerifyingSecret | express-rbac-multi-tenant-kysely-zod-errorhandling/src/middlewares/auth.ts:26 | the middleware's key is JWT_SECRET when that is set and non-empty, and is never empty |
| Crypto.SigningSecret | express-rbac-multi-tenant-kysely-zod-errorhandling/src/auth/auth.service.ts:22 | the signing key is never empty, and equals the middleware's key exactly when JWT_SECRET is set and non-empty |
| Crypto.SignJwt | express-rbac-multi-tenant-kysely-zod-errorhandling/src/auth/auth.service.ts:21-28 | the token is non-empty and decodes to the claims `{sub: id, roles}` under the signing key, expiring `ttl` seconds after `now` |
| Crypto.EnvOr | express-rbac-multi-tenant-kysely-zod-errorhandling/src/middlewares/auth.ts:26 | `env \|\| fallback`: an unset or empty variable gives the fallback |
| Crypto.SignThenVerify | express-rbac-multi-tenant-kysely-zod-errorhandling/src/auth/auth.service.ts:21-28 | a signed token verifies under the signing secret before expiry with exactly `{sub: id, roles}` (no tenant claim); under any other key it is InvalidSignature and after expiry Expired |
| Crypto.FallbackSecretsDisagree | express-rbac-multi-tenant-kysely-zod-errorhandling/src/auth/auth.service.ts:22 | with JWT_SECRET unset or empty, a token the service signs fails verification in the middleware with InvalidSignature |
| Zod.NoAtIsNoEmail | express-rbac-multi-tenant-kysely-zod-errorhandling/domain/authentication/register.schema.ts:4 | a string without '@' is not an email |
| Zod.NullableString | express-rbac-multi-tenant-kysely-zod-errorhandling/domain/user/create-user.schema.ts:4 | `string().nullable().optional()`: absent, null and string are told apart exactly; any other JSON type fails |
| IdParams.ParseId | express-rbac-multi-tenant-kysely-zod-errorhandling/domain/utils/id-params.schema.ts:5-9 | accepted iff the id matches the UUID pattern (so it has 36 characters); the empty id is rejected |
| IdParams.JoinedGroupsAreUuid | express-rbac-multi-tenant-kysely-zod-errorhandling/domain/utils/id-params.schema.ts:3 | five hex groups of lengths 8-4-4-4-12 joined by hyphens are accepted |
| IdParams.UuidSplitsIntoGroups | express-rbac-multi-tenant-kysely-zod-errorhandling/domain/utils/id-params.schema.ts:3 | every accepted string is exactly such a join of five hex groups |
| IdParams.CaseInsensitive | express-rbac-multi-tenant-kysely-zod-errorhandling/domain/utils/id-params.schema.ts:3 | acceptance does not depend on the case of the hex digits |
| IdParams.MalformedIdsRejected | express-rbac-multi-tenant-kysely-zod-errorhandling/tests/user.test.ts:192-200 | example from the test file: `""` and `"invalid-id"` are rejected |
| IdParams.NilUuidAccepted | express-rbac-multi-tenant-kysely-zod-errorhandling/tests/user.test.ts:181-190 | example from the test file: the all-zero UUID passes the format check, so a lookup answers 404 rather than 400 |
| RegisterSchema.Parse | express-rbac-multi-tenant-kysely-zod-errorhandling/domain/authentication/register.schema.ts:3-8 | accepted iff the email is well-formed, the password has 8..70 characters and any role is Admin, Manager or User; the parsed fields are those of the input |
| RegisterSchema.RequestedRole | express-rbac-multi-tenant-kysely-zod-errorhandling/src/auth/auth.service.ts:42 | `input.role \|\| "User"`: a given non-empty role is the one requested; an omitted or empty role asks for "User" |
| RegisterSchema.ParsedRoleInEnum | express-rbac-multi-tenant-kysely-zod-errorhandling/domain/authentication/register.schema.ts:7 | every accepted input asks for a role of the enumeration, and "User" when the role is omitted |
| RegisterSchema.PasswordBounds | express-rbac-multi-tenant-kysely-zod-errorhandling/domain/authentication/register.schema.ts:6 | with a valid email, the input is accepted iff the password length is in 8..70 |
| RegisterSchema.RejectedInputs | express-rbac-multi-tenant-kysely-zod-errorhandling/tests/auth.test.ts:96-104 | examples from the test file: role "InvalidRole" and email "email-invalido" are rejected |
| LoginSchema.Parse | express-rbac-multi-tenant-kysely-zod-errorhandling/domain/authentication/login.schema.ts:3-7 | accepted iff the email is well-formed and the password has 8..70 characters; the result holds exactly those two fields |
| LoginSchema.OtherKeysIgnored | express-rbac-multi-tenant-kysely-zod-errorhandling/domain/authentication/login.schema.ts:3-7 | members other than email and password (a role, say) never change the outcome |
| LoginSchema.RejectedInputs | express-rbac-multi-tenant-kysely-zod-errorhandling/tests/auth.test.ts:162-178 | examples from the test file: a 7-character password and a malformed email are rejected |
| CreateUserSchema.Parse | express-rbac-multi-tenant-kysely-zod-errorhandling/domain/user/create-user.schema.ts:3-10 | accepted iff tenant_id is absent, null or a string, the email is well-formed, the password has 1..70 characters, the role is absent or "User" and created_at is absent or a parseable date; the role is always "User" |
| CreateUserSchema.RejectedInputs | express-rbac-multi-tenant-kysely-zod-errorhandling/tests/user.test.ts:89-123 | examples from the test file: the empty password, a malformed email, any role other than "User" and a non-string created_at are rejected |
| CreateUserSchema.TenantForms | express-rbac-multi-tenant-kysely-zod-errorhandling/domain/user/create-user.schema.ts:4 | an otherwise valid input stays valid whether tenant_id is absent, null or any string |
| UpdateUserSchema.Parse | express-rbac-multi-tenant-kysely-zod-errorhandling/domain/user/update-user.schema.ts:3-9 | accepted iff each present field is valid and at least one declared key is present; each present email is well-formed and each present password has 1..70 characters |
| UpdateUserSchema.EmptyRejected | express-rbac-multi-tenant-kysely-zod-errorhandling/domain/user/update-user.schema.ts:9 | an input without any declared key fails with "At least one field required" |
| UpdateUserSchema.RejectedInputs | express-rbac-multi-tenant-kysely-zod-errorhandling/tests/user.test.ts:283-295 | examples from the test file: a malformed email, the empty password and a role other than "User" are rejected |
| Db.Database.constructor | express-rbac-multi-tenant-kysely-zod-errorhandling/migrations/20251108181106_create_user_roles_table.ts:4-20 | an empty database over a catalog with unique ids and names satisfies every table constraint |
| Db.IndexOfId | express-rbac-multi-tenant-kysely-zod-errorhandling/src/user/user.repo.ts:35 | finds a row with the id exactly when one exists |
| Db.IndexOfEmail | express-rbac-multi-tenant-kysely-zod-errorhandling/src/user/user.repo.ts:85 | finds a row with the email exactly when one exists |
| Db.GetRoleByName | express-rbac-multi-tenant-kysely-zod-errorhandling/src/role/role.repo.ts:17-19 | a found role is in the catalog with that name; nothing is found iff no role has the name |
| Db.SeededRolesResolve | express-rbac-multi-tenant-kysely-zod-errorhandling/migrations/20251108181105_create_roles_table.ts:12-16 | example: Admin, Manager and User all resolve in the seeded catalog, whose ids and names are unique |
| Db.FindPair | express-rbac-multi-tenant-kysely-zod-errorhandling/src/user-role/user-role.repo.ts:7-12 | finds a row with the (user_id, role_id) pair exactly when one exists |
| Db.RolesWithId | express-rbac-multi-tenant-kysely-zod-errorhandling/src/user-role/user-role.repo.ts:35 | the catalog roles with the given id, exactly |
| Db.AtMostOneRoleWithId | express-rbac-multi-tenant-kysely-zod-errorhandling/migrations/20251108181105_create_roles_table.ts:5 | under the primary key at most one role has a given id |
| Db.JoinRoles | express-rbac-multi-tenant-kysely-zod-errorhandling/src/user-role/user-role.repo.ts:32-39 | the inner join lists exactly the catalog roles that some row of the user references |
| Db.JoinRolesAppend | express-rbac-multi-tenant-kysely-zod-errorhandling/src/user-role/user-role.repo.ts:32-39 | appending a row adds only its role, at the end of that user's join |
| Db.JoinRolesDistinct | express-rbac-multi-tenant-kysely-zod-errorhandling/migrations/20251108181106_create_user_roles_table.ts:15 | under the unique pair and the roles' primary key, a user's join lists no role twice |
| Db.JoinRolesOfUnreferenced | express-rbac-multi-tenant-kysely-zod-errorhandling/src/user-role/user-role.repo.ts:32-39 | a user no row references has no roles |
| Db.WithoutPair | express-rbac-multi-tenant-kysely-zod-errorhandling/src/user-role/user-role.repo.ts:41-47 | keeps exactly the rows that do not hold the pair, each as often as before |
| Db.WithoutPairAppend | express-rbac-multi-tenant-kysely-zod-errorhandling/src/user-role/user-role.repo.ts:41-47 | deletion distributes over concatenation, so the surviving rows keep their table order |
| Db.WithoutUser | express-rbac-multi-tenant-kysely-zod-errorhandling/src/user-role/user-role.repo.ts:49-51 | keeps exactly the rows of other users, each as often as before |
| Db.WithoutUserAppend | express-rbac-multi-tenant-kysely-zod-errorhandling/src/user-role/user-role.repo.ts:49-51 | cascade deletion distributes over concatenation, so the surviving rows keep their table order |
| Db.WithoutAbsentPair | express-rbac-multi-tenant-kysely-zod-errorhandling/src/user-role/user-role.repo.ts:41-47 | deleting an absent pair changes nothing |
| Db.WithoutUserKeepsOthers | express-rbac-multi-tenant-kysely-zod-errorhandling/src/user-role/user-role.repo.ts:49-51 | deleting one user's rows leaves every other user's roles as they were |
| Db.WithoutUserEmptiesJoin | express-rbac-multi-tenant-kysely-zod-errorhandling/src/user-role/user-role.repo.ts:49-51 | afterwards the user has no roles |
| Db.UniquePairsAppend | express-rbac-multi-tenant-kysely-zod-errorhandling/migrations/20251108181106_create_user_roles_table.ts:15 | appending a row whose pair is new keeps pairs unique |
| Db.WithoutPairKeepsUnique | express-rbac-multi-tenant-kysely-zod-errorhandling/src/user-role/user-role.repo.ts:41-47 | deleting a pair keeps the remaining pairs unique |
| Db.WithoutUserKeepsUnique | express-rbac-multi-tenant-kysely-zod-errorhandling/src/user-role/user-role.repo.ts:49-51 | deleting a user's rows keeps the remaining pairs unique |
| Db.UnknownUserHasNoRows | express-rbac-multi-tenant-kysely-zod-errorhandling/migrations/20251108181106_create_user_roles_table.ts:11 | under the foreign key, an id absent from users has no user_roles rows |
| UserRepo.InsertUser | express-rbac-multi-tenant-kysely-zod-errorhandling/src/user/user.repo.ts:8-21 | a clash of id or email gives BadRequest("Email already exists") and leaves the table alone; otherwise exactly the new row is appended and returned; the invariant is kept |
| UserRepo.ListUsers | express-rbac-multi-tenant-kysely-zod-errorhandling/src/user/user.repo.ts:24-30 | returns every row, in table order, and changes nothing |
| UserRepo.GetUser | express-rbac-multi-tenant-kysely-zod-errorhandling/src/user/user.repo.ts:33-46 | returns a row with the id iff one exists, otherwise NotFound("User") |
| UserRepo.GetUserByEmail | express-rbac-multi-tenant-kysely-zod-errorhandling/src/user/user.repo.ts:83-89 | returns a row with the email iff one exists; absence is not an error |
| UserRepo.Apply | express-rbac-multi-tenant-kysely-zod-errorhandling/src/user/user.repo.ts:51 | `set(u)` keeps id and created_at and changes nothing for an empty update; each supplied column (email, password hash, tenant_id) takes the supplied value, a null tenant_id clears the tenant, and each unsupplied column keeps its value |
| UserRepo.UpdateUser | express-rbac-multi-tenant-kysely-zod-errorhandling/src/user/user.repo.ts:49-65 | an empty update is an internal error; a missing id is NotFound; an email held by another row is BadRequest; otherwise only that row changes, only in the supplied columns; errors leave the table alone; the invariant is kept |
| UserRepo.RemoveAtKeepsKeys | express-rbac-multi-tenant-kysely-zod-errorhandling/src/user/user.repo.ts:68-80 | deleting a row keeps ids and emails unique and removes exactly its id |
| UserRepo.DeleteUser | express-rbac-multi-tenant-kysely-zod-errorhandling/src/user/user.repo.ts:68-80 | a missing id is NotFound; otherwise the row goes, its user_roles rows cascade away, and a later GetUser answers NotFound |
| UserRoleRepo.Assigned | express-rbac-multi-tenant-kysely-zod-errorhandling/src/user-role/user-role.repo.ts:5-30 | assignment keeps every old row and adds at most one, at the end, only when the pair is absent and both keys resolve |
| UserRoleRepo.AssignRoleToUser | express-rbac-multi-tenant-kysely-zod-errorhandling/src/user-role/user-role.repo.ts:5-30 | an existing pair is returned and nothing is inserted; otherwise exactly one row is appended when both keys resolve, else the foreign-key error; the invariant is kept |
| UserRoleRepo.GetUserRoles | express-rbac-multi-tenant-kysely-zod-errorhandling/src/user-role/user-role.repo.ts:32-39 | exactly the catalog roles some row of the user references, none twice under the invariant |
| UserRoleRepo.RemoveRoleFromUser | express-rbac-multi-tenant-kysely-zod-errorhandling/src/user-role/user-role.repo.ts:41-47 | the table loses exactly the pair's rows; the invariant is kept |
| UserRoleRepo.RemoveAllRolesFromUser | express-rbac-multi-tenant-kysely-zod-errorhandling/src/user-role/user-role.repo.ts:49-51 | the user's roles become empty and every other user's roles are unchanged |
| UserRoleRepo.AssignIdempotent | express-rbac-multi-tenant-kysely-zod-errorhandling/src/user-role/user-role.repo.ts:5-30 | assigning the same pair twice leaves the table as after the first call |
| UserRoleRepo.AssignKeepsInvariants | express-rbac-multi-tenant-kysely-zod-errorhandling/migrations/20251108181106_create_user_roles_table.ts:11-15 | assignment keeps pairs unique and foreign keys resolving |
| UserRoleRepo.AssignGrantsRole | express-rbac-multi-tenant-kysely-zod-errorhandling/src/user-role/user-role.repo.ts:19-29 | when both keys resolve, the user afterwards holds the role |
| UserRoleRepo.AssignKeepsOthers | express-rbac-multi-tenant-kysely-zod-errorhandling/src/user-role/user-role.repo.ts:19-29 | assignment leaves every other user's roles alone |
| UserRoleRepo.AssignToFreshUser | express-rbac-multi-tenant-kysely-zod-errorhandling/src/auth/auth.service.ts:46-49 | a user with no rows who is assigned a role holds exactly that one role |
| UserRoleRepo.RemoveRoleRevokes | express-rbac-multi-tenant-kysely-zod-errorhandling/src/user-role/user-role.repo.ts:41-47 | deleting a pair revokes that role from that user and no other role |
| AuthMiddleware.Request.constructor | express-rbac-multi-tenant-kysely-zod-errorhandling/src/middlewares/auth.ts:4-13 | a request starts without `auth` |
| AuthMiddleware.BearerToken | express-rbac-multi-tenant-kysely-zod-errorhandling/src/middlewares/auth.ts:17-18 | a non-empty token means the header is exactly "Bearer " followed by it; an absent header or another scheme gives "" |
| AuthMiddleware.BearerRoundTrip | express-rbac-multi-tenant-kysely-zod-errorhandling/src/middlewares/auth.ts:18 | the token of "Bearer " + t is t |
| AuthMiddleware.AuthFrom | express-rbac-multi-tenant-kysely-zod-errorhandling/src/middlewares/auth.ts:17-28 | an identity results iff a token is present and verifies under the middleware's secret; it carries `sub` and `roles`, or [] when roles are absent |
| AuthMiddleware.AttachAuth | express-rbac-multi-tenant-kysely-zod-errorhandling/src/middlewares/auth.ts:15-34 | next is called exactly once; `auth` is set only when the token verifies, and is otherwise left as it was |
| AuthMiddleware.NoTokenNoAuth | express-rbac-multi-tenant-kysely-zod-errorhandling/src/middlewares/auth.ts:20-23 | no header, "Bearer " alone, or any header not starting with exactly "Bearer " gives no identity |
| AuthMiddleware.LowercaseSchemeNoAuth | express-rbac-multi-tenant-kysely-zod-errorhandling/src/middlewares/auth.ts:18 | the prefix test is case-sensitive: "bearer " + t never authenticates |
| AuthMiddleware.BadTokenNoAuth | express-rbac-multi-tenant-kysely-zod-errorhandling/src/middlewares/auth.ts:29-32 | a token that fails verification leaves the request anonymous |
| AuthMiddleware.SignedTokenAuthenticates | express-rbac-multi-tenant-kysely-zod-errorhandling/src/middlewares/auth.ts:25-28 | with JWT_SECRET set, a service-signed token presented before expiry yields exactly its sub and roles |
| AuthMiddleware.RolesList | express-rbac-multi-tenant-kysely-zod-errorhandling/src/middlewares/auth.ts:37 | a single role becomes a one-element list and a list stays as given |
| AuthMiddleware.HasAnyRole | express-rbac-multi-tenant-kysely-zod-errorhandling/src/middlewares/auth.ts:46 | true iff some required role is among the user's roles (ANY) |
| AuthMiddleware.RequireRole | express-rbac-multi-tenant-kysely-zod-errorhandling/src/middlewares/auth.ts:36-54 | 401 iff auth is absent or its role list is empty; 403 iff roles are non-empty and share none with the required list; passes iff they share one |
| AuthMiddleware.NoRolesIsUnauthorized | express-rbac-multi-tenant-kysely-zod-errorhandling/src/middlewares/auth.ts:40-42 | an authenticated user with no roles gets 401, not 403 |
| AuthMiddleware.AdminWithoutUserForbiddenOnUsers | express-rbac-multi-tenant-kysely-zod-errorhandling/src/user/user.routes.ts:10-14 | example: the /users gate requires "User", so a user whose only role is Admin gets 403 |
| AuthMiddleware.MoreRolesStillPass | express-rbac-multi-tenant-kysely-zod-errorhandling/src/middlewares/auth.ts:46-52 | holding more roles never turns a pass into a rejection |
| AuthMiddleware.OneRoleIsSingletonList | express-rbac-multi-tenant-kysely-zod-errorhandling/src/middlewares/auth.ts:37 | a single role and the one-element list give the same answer |
| AuthService.RoleNames | express-rbac-multi-tenant-kysely-zod-errorhandling/src/auth/auth.service.ts:50 | the names of the roles, in the same order |
| AuthService.RegisterUser | express-rbac-multi-tenant-kysely-zod-errorhandling/src/auth/auth.service.ts:30-63 | invalid input gives "Validation error" and a taken email "Email already exists", both without changing any store. Otherwise the row (hash of the password, fixed tenant) is inserted. Then one of two things happens. An unknown role gives "Default role not found" and the row stays. Otherwise the user holds exactly that role, and the token carries its name |
| AuthService.Login | express-rbac-multi-tenant-kysely-zod-errorhandling/src/auth/auth.service.ts:65-89 | invalid input is "Validation error". Under unique emails, success happens iff some user has the email and the password verifies. Every other failure is the same "Invalid credentials". On success the roles are the user's and the token is `{sub: id, roles: names}` |
| AuthService.LoginTokenOpensUsersRoutes | express-rbac-multi-tenant-kysely-zod-errorhandling/src/auth/auth.service.ts:78-82 | with JWT_SECRET set, a login token presented before expiry by a user holding "User" passes the /users gate |
| AuthService.LoginTokenIgnoredWithoutSecret | express-rbac-multi-tenant-kysely-zod-errorhandling/src/middlewares/auth.ts:26 | with JWT_SECRET unset, every login token is ignored and the gate answers 401 |
| UserService.TenantOrDefault | express-rbac-multi-tenant-kysely-zod-errorhandling/src/user/user.service.ts:21 | absent, null and "" tenant ids give the default tenant; any other id is kept |
| UserService.Create | express-rbac-multi-tenant-kysely-zod-errorhandling/src/user/user.service.ts:15-47 | invalid input and a taken email fail without changing any store. Otherwise the row is inserted with the hash, the tenant default and created_at or now. Then one of two things happens. An unknown "User" role gives "Role User not found" and the row stays. Otherwise the user holds exactly that role |
| UserService.UpdateOf | express-rbac-multi-tenant-kysely-zod-errorhandling/src/user/user.service.ts:52-62 | the update holds exactly the fields present, with the password's hash in place of the password; it is empty iff none of email, password and tenant_id is present |
| UserService.Update | express-rbac-multi-tenant-kysely-zod-errorhandling/src/user/user.service.ts:49-74 | invalid input gives "Validation error"; otherwise it behaves as `UserRepo.UpdateUser` applied to `UpdateOf(input)` |
| UserService.UpdateIgnoresRole | express-rbac-multi-tenant-kysely-zod-errorhandling/src/user/user.service.ts:52-62 | a role in the input never affects the update |
| UserService.UpdateTouchesOnlySupplied | express-rbac-multi-tenant-kysely-zod-errorhandling/src/user/user.service.ts:54-62 | the id and the creation date never change. Email, password hash and tenant change only when supplied, to the supplied value (hashed for the password). An explicit null clears the tenant |
| UserService.RoleOnlyUpdateIsEmpty | express-rbac-multi-tenant-kysely-zod-errorhandling/domain/user/update-user.schema.ts:8-9 | an input holding only role passes validation yet yields an empty update |
| RemoveRoleMigration.MigrationDb.constructor | express-rbac-multi-tenant-kysely-zod-errorhandling/migrations/20251108181107_remove_role_from_users_table.ts:6-9 | holds the given tables |
| RemoveRoleMigration.MigrationDb.Up | express-rbac-multi-tenant-kysely-zod-errorhandling/migrations/20251108181107_remove_role_from_users_table.ts:3-36 | users are untouched and the role column is gone; user_roles becomes `UpRows` of the users in order |
| RemoveRoleMigration.MigrationDb.Down | express-rbac-multi-tenant-kysely-zod-errorhandling/migrations/20251108181107_remove_role_from_users_table.ts:38-60 | the role column is back and no user_roles row changes; every user's role is `RestoredRole` of its id |
| RemoveRoleMigration.CollectFirstRoles | express-rbac-multi-tenant-kysely-zod-errorhandling/migrations/20251108181107_remove_role_from_users_table.ts:49-54 | the filled Map is `FirstWins` of the joined rows, and its insertion order lists exactly its keys |
| RemoveRoleMigration.RoleMap | express-rbac-multi-tenant-kysely-zod-errorhandling/migrations/20251108181107_remove_role_from_users_table.ts:10 | the map's names are exactly the catalog's, each sent to the id of a role with that name |
| RemoveRoleMigration.RoleMapOfUniqueNames | express-rbac-multi-tenant-kysely-zod-errorhandling/migrations/20251108181107_remove_role_from_users_table.ts:10 | with unique names, each name is sent to its own role's id |
| RemoveRoleMigration.UpCovers | express-rbac-multi-tenant-kysely-zod-errorhandling/migrations/20251108181107_remove_role_from_users_table.ts:13-30 | every user whose role the catalog knows ends up with a row for that role |
| RemoveRoleMigration.UpOnlyFromUsers | express-rbac-multi-tenant-kysely-zod-errorhandling/migrations/20251108181107_remove_role_from_users_table.ts:14-15 | every added row comes from a user whose role the catalog knows, so an unknown role adds nothing |
| RemoveRoleMigration.UpKeepsOld | express-rbac-multi-tenant-kysely-zod-errorhandling/migrations/20251108181107_remove_role_from_users_table.ts:22-28 | the rows already present stay, in place; up only appends |
| RemoveRoleMigration.UpNoDuplicates | express-rbac-multi-tenant-kysely-zod-errorhandling/migrations/20251108181107_remove_role_from_users_table.ts:17-28 | up never creates a second row for a pair |
| RemoveRoleMigration.RowNames | express-rbac-multi-tenant-kysely-zod-errorhandling/migrations/20251108181107_remove_role_from_users_table.ts:45-47 | a row contributes exactly the (user, name) pairs of the catalog roles with its role id |
| RemoveRoleMigration.JoinNames | express-rbac-multi-tenant-kysely-zod-errorhandling/migrations/20251108181107_remove_role_from_users_table.ts:45-47 | the join lists exactly the (user, role name) pairs some row references |
| RemoveRoleMigration.JoinNamesAppend | express-rbac-multi-tenant-kysely-zod-errorhandling/migrations/20251108181107_remove_role_from_users_table.ts:45-47 | the join distributes over concatenation of the table, so names come in table order |
| RemoveRoleMigration.FirstWins | express-rbac-multi-tenant-kysely-zod-errorhandling/migrations/20251108181107_remove_role_from_users_table.ts:49-54 | the keys are exactly the users listed, each sent to a name listed for it |
| RemoveRoleMigration.FirstWinsIsFirst | express-rbac-multi-tenant-kysely-zod-errorhandling/migrations/20251108181107_remove_role_from_users_table.ts:51-53 | a user gets the name of its first pair; later pairs never overwrite it |
| RemoveRoleMigration.RestoredRole | express-rbac-multi-tenant-kysely-zod-errorhandling/migrations/20251108181107_remove_role_from_users_table.ts:41 | a user without user_roles rows keeps the default 'User' |
| RemoveRoleMigration.SetRole | express-rbac-multi-tenant-kysely-zod-errorhandling/migrations/20251108181107_remove_role_from_users_table.ts:58 | only the rows with that id get the name |
| RemoveRoleMigration.UpThenDownRestoresRole | express-rbac-multi-tenant-kysely-zod-errorhandling/migrations/20251108181107_remove_role_from_users_table.ts:3-60 | up on an empty user_roles followed by down gives every user whose role the catalog knows that role back (ids and names unique, no empty role id) |
| RemoveRoleMigration.UnknownRoleRestoresDefault | express-rbac-multi-tenant-kysely-zod-errorhandling/migrations/20251108181107_remove_role_from_users_table.ts:14-15 | a user whose role the catalog lacks gets no row, and down then gives it 'User' |

## Left out

- **Hash and passwords.**
  - A hash is modelled as its cost and the key bytes bcrypt reads: the first 72 bytes of the password's UTF-8 encoding. Checking compares those bytes.
  - The schemas' comments speak of 71 characters; bcrypt's limit is 72 bytes, which a password within zod's 70-character bound can exceed when it holds non-ASCII characters. `Crypto.TwinPasswords` shows two such passwords that are interchangeable.
  - Salting, the one-way function itself and the work factor's timing are not modelled. They are foreign code.
  - A NUL character inside a password, which the native binding may treat as the end of the key, is not modelled.
- **Tokens.**
  - The JWT serialisation, signature algorithm and header are not modelled. The codec is a parameter.
  - Parsing of the `"7d"` or `JWT_EXPIRES_IN` setting is not modelled. The lifetime is a number of seconds given as a parameter.
  - Tokens without `sub` are not modelled; `Claims.sub` is always present.
- **Email grammar.**
  - Email syntax is approximated by `Zod.IsEmail`: one '@', a non-empty local part, and a domain with an inner dot.
  - zod's full grammar is not modelled.
- **String lengths** are lengths of `seq<char>`. JavaScript's UTF-16 code-unit count is not modelled.
- **Dates.**
  - Dates are opaque integers, and `dateOf` stands for `new Date(v)`.
  - A `Date` object as `created_at` input cannot occur in a JSON body.
- **zod's error report** is reduced to the first failing field or the refinement. zod's full list of issues is not modelled.
- **Failures of PostgreSQL or the driver other than the modelled constraints** are not modelled. These are connection loss, timeouts, and the InternalServerError "Failed to …" paths they cause. The one exception is the empty update in `UserRepo.UpdateUser`.
- **The empty update.** An update with nothing to set renders an empty SET list, which PostgreSQL rejects. The model gives it the resulting "Failed to update user" directly.
- **Row order.** PostgreSQL returns rows in an unspecified order. The model uses table (insertion) order for lookups, joins and the migration's join.
- **Concurrency.**
  - Concurrent requests are not modelled.
  - The check-then-insert race in `assignRoleToUser` is not modelled.
  - Registration and creation are not transactional: a failed role lookup leaves the inserted user. The model keeps this behaviour.
- **The migration.**
  - The enum check constraint of the restored column (Admin/Manager/User) is not modelled. Neither is the failure of `down` for a role name outside it.
  - The transaction the migration runner wraps around the migration is not modelled.
  - The `created_at` of rows `up` inserts is the parameter `now`.
- **Express plumbing.** Routing, controllers, `validateSchema`, response bodies other than the gate's, tracing and OpenTelemetry are not modelled. Nor are `db.ts`, `knexfile.ts`, the test-data script and the role repository beyond `getRoleByName`.
- **Logging.** The `console.log` calls in `attachAuth` are not modelled.
