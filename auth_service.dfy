/** `authService`: registration (hash, insert the user, resolve and assign
    the requested role, collect the user's roles, sign a token) and login
    (look up by email, check the password, sign a token). */
module AuthService {
  import opened Wrappers
  import opened Errors
  import opened Crypto
  import opened Zod
  import opened Db
  import opened UserRepo
  import opened UserRoleRepo
  import opened AuthMiddleware
  import RegisterSchema
  import LoginSchema

  /** The tenant every self-registered user is put in. */
  const RegisterTenant := "35bf3157-aa86-42fc-af32-2c602d3b8be2"

  /** What both operations return: the user row, the token and the roles. */
  datatype Session = Session(user: User, token: string, roles: seq<Role>)

  /** `roles.map(r => r.name)`. */
  function RoleNames(roles: seq<Role>): (names: seq<string>)
    ensures |names| == |roles|
    ensures forall i | 0 <= i < |roles| :: names[i] == roles[i].name
  {
    seq(|roles|, i requires 0 <= i < |roles| => roles[i].name)
  }

  /** `registerUser(inputRaw)` at clock `now`; `newId` is the id the
      database assigns, `jwtSecretEnv` is JWT_SECRET and `ttl` the token
      lifetime. The user row is inserted before the role is looked up and is
      not removed when the lookup fails. */
  method RegisterUser(db: Database, raw: JsonObject, newId: string, now: Timestamp,
                      jwtSecretEnv: Option<string>, codec: JwtCodec, ttl: nat)
    returns (r: Result<Session, Thrown>)
    requires db.Valid()
    modifies db`users, db`userRoles
    ensures db.Valid()
    ensures RegisterSchema.Parse(raw).Err? ==>
              r == Err(Api(BadRequest("Validation error"))) &&
              db.users == old(db.users) && db.userRoles == old(db.userRoles)
    ensures RegisterSchema.Parse(raw).Ok? &&
            (newId in Ids(old(db.users)) || RegisterSchema.Parse(raw).value.email in Emails(old(db.users))) ==>
              r == Err(Api(BadRequest("Email already exists"))) &&
              db.users == old(db.users) && db.userRoles == old(db.userRoles)
    ensures RegisterSchema.Parse(raw).Ok? &&
            newId !in Ids(old(db.users)) && RegisterSchema.Parse(raw).value.email !in Emails(old(db.users)) ==>
              var input := RegisterSchema.Parse(raw).value;
              var row := User(newId, Some(RegisterTenant), input.email, Hash(input.password), now);
              db.users == old(db.users) + [row] &&
              Verify(input.password, row.passwordHash) &&
              match GetRoleByName(db.roles, RegisterSchema.RequestedRole(input))
              case None =>
                r == Err(Api(InternalServer("Default role not found"))) && db.userRoles == old(db.userRoles)
              case Some(role) =>
                db.userRoles == old(db.userRoles) + [UserRole(newId, role.id, now)] &&
                GetUserRoles(db, newId) == [role] &&
                r == Ok(Session(row, SignJwt(codec, jwtSecretEnv, ttl, now, newId, [role.name]), [role]))
  {
    var parsed := RegisterSchema.Parse(raw);
    if parsed.Err? {
      return Err(TranslateWriteError(ZodError));
    }
    var input := parsed.value;
    var created := InsertUser(db, newId, NewUser(Some(RegisterTenant), input.email, Hash(input.password), now));
    if created.Err? {
      return Err(TranslateWriteError(Api(created.error)));
    }
    var user := created.value;
    UnknownUserHasNoRows(db.userRoles, old(db.users), db.roles, newId);
    var defaultRole := GetRoleByName(db.roles, RegisterSchema.RequestedRole(input));
    if defaultRole.None? {
      return Err(TranslateWriteError(Api(InternalServer("Default role not found"))));
    }
    var role := defaultRole.value;
    assert db.users[|db.users| - 1] == user;
    ghost var rowsBefore := db.userRoles;
    var assignment := AssignRoleToUser(db, user.id, role.id, now);
    AssignToFreshUser(rowsBefore, db.users, db.roles, user.id, role, now);
    var userRoles := GetUserRoles(db, user.id);
    assert RoleNames(userRoles) == [role.name];
    var token := SignJwt(codec, jwtSecretEnv, ttl, now, user.id, RoleNames(userRoles));
    r := Ok(Session(user, token, userRoles));
  }

  /** `login(inputRaw)` at clock `now`: reads the stores and changes none. An
      unknown email and a wrong password give the same error. */
  function Login(db: Database, raw: JsonObject, now: Timestamp, jwtSecretEnv: Option<string>,
                 codec: JwtCodec, ttl: nat): (r: Result<Session, Thrown>)
    reads db
    ensures LoginSchema.Parse(raw).Err? ==> r == Err(Api(BadRequest("Validation error")))
    ensures LoginSchema.Parse(raw).Ok? && r.Err? ==> r.error == Api(Unauthorized("Invalid credentials"))
    ensures LoginSchema.Parse(raw).Ok? && UniqueEmails(db.users) ==>
              (r.Ok? <==> exists u | u in db.users ::
                            u.email == LoginSchema.Parse(raw).value.email &&
                            Verify(LoginSchema.Parse(raw).value.password, u.passwordHash))
    ensures r.Ok? ==>
              r.value.user in db.users && r.value.user.email == LoginSchema.Parse(raw).value.email &&
              r.value.roles == GetUserRoles(db, r.value.user.id) &&
              r.value.token == SignJwt(codec, jwtSecretEnv, ttl, now, r.value.user.id, RoleNames(r.value.roles))
  {
    match LoginSchema.Parse(raw)
    case Err(_) => Err(TranslateLoginError(ZodError))
    case Ok(input) =>
      match GetUserByEmail(db, input.email)
      case None => Err(TranslateLoginError(Api(Unauthorized("Invalid credentials"))))
      case Some(existing) =>
        if !Verify(input.password, existing.passwordHash) then
          assert UniqueEmails(db.users) ==>
                   forall u | u in db.users && u.email == input.email :: u == existing by {
            if UniqueEmails(db.users) {
              forall u | u in db.users && u.email == input.email ensures u == existing {
                var i :| 0 <= i < |db.users| && db.users[i] == u;
                var j :| 0 <= j < |db.users| && db.users[j] == existing;
                assert i == j;
              }
            }
          }
          Err(TranslateLoginError(Api(Unauthorized("Invalid credentials"))))
        else
          var userRoles := GetUserRoles(db, existing.id);
          Ok(Session(existing, SignJwt(codec, jwtSecretEnv, ttl, now, existing.id, RoleNames(userRoles)), userRoles))
  }

  /** A logged-in user who holds "User" and presents the token, before it
      expires and with JWT_SECRET set, passes the gate of every `/users`
      route. */
  lemma LoginTokenOpensUsersRoutes(db: Database, raw: JsonObject, issued: Timestamp, env: Option<string>,
                                   codec: JwtCodec, ttl: nat, now: int)
    requires Faithful(codec)
    requires env.Some? && env.value != ""
    requires now < issued + ttl
    requires Login(db, raw, issued, env, codec, ttl).Ok?
    requires "User" in RoleNames(Login(db, raw, issued, env, codec, ttl).value.roles)
    ensures var s := Login(db, raw, issued, env, codec, ttl).value;
            RequireRole(OneRole("User"), AuthFrom(Some(Scheme + s.token), env, codec, now)) == CallNext
  {
    var s := Login(db, raw, issued, env, codec, ttl).value;
    SignedTokenAuthenticates(codec, env, ttl, issued, s.user.id, RoleNames(s.roles), now);
  }

  /** With JWT_SECRET unset the service signs with one fallback secret and
      the middleware verifies with another, so every token login issues is
      ignored and every `/users` route answers 401. */
  lemma LoginTokenIgnoredWithoutSecret(db: Database, raw: JsonObject, issued: Timestamp,
                                       codec: JwtCodec, ttl: nat, now: int, required: RequiredRoles)
    requires Faithful(codec)
    requires Login(db, raw, issued, None, codec, ttl).Ok?
    ensures var s := Login(db, raw, issued, None, codec, ttl).value;
            RequireRole(required, AuthFrom(Some(Scheme + s.token), None, codec, now)) ==
              Respond(401, "Unauthorized")
  {
    var s := Login(db, raw, issued, None, codec, ttl).value;
    FallbackSecretsDisagree(codec, None, ttl, issued, s.user.id, RoleNames(s.roles), now);
    BadTokenNoAuth(s.token, None, codec, now);
  }
}
