/** `attachAuth` and `requireRole`: reading a Bearer token (section 2.1 of
    RFC 6750, scheme matched case-sensitively) into `req.auth`, and the role
    gate that answers 401, 403 or hands the request on. */
module AuthMiddleware {
  import opened Wrappers
  import opened Crypto

  const Scheme := "Bearer "

  /** What `req.auth` holds once a token has verified. */
  datatype AuthInfo = AuthInfo(userId: string, roles: seq<string>)

  /** The part of an Express request the middleware touches. */
  class Request {
    const authorization: Option<string>
    var auth: Option<AuthInfo>

    constructor (authorization: Option<string>)
      ensures this.authorization == authorization && auth == None
    {
      this.authorization := authorization;
      auth := None;
    }
  }

  /** The token of an `Authorization` header: the text after exactly
      "Bearer ", or "" when the header is absent or uses another scheme. */
  function BearerToken(header: Option<string>): (t: string)
    ensures t != "" ==> header == Some(Scheme + t)
    ensures header.None? ==> t == ""
    ensures header.Some? && !(|Scheme| <= |header.value| && header.value[..|Scheme|] == Scheme) ==> t == ""
  {
    var h := header.GetOr("");
    if |Scheme| <= |h| && h[..|Scheme|] == Scheme then
      assert h == Scheme + h[|Scheme|..];
      h[|Scheme|..]
    else ""
  }

  /** A header built from the scheme gives its token back. */
  lemma BearerRoundTrip(t: string)
    ensures BearerToken(Some(Scheme + t)) == t
  {
    assert (Scheme + t)[..|Scheme|] == Scheme;
    assert (Scheme + t)[|Scheme|..] == t;
  }

  /** The identity `attachAuth` derives from the header, if any. */
  function AuthFrom(header: Option<string>, jwtSecretEnv: Option<string>, codec: JwtCodec, now: int)
    : (r: Option<AuthInfo>)
    ensures r.Some? <==> BearerToken(header) != "" &&
                         VerifyJwt(codec, BearerToken(header), VerifyingSecret(jwtSecretEnv), now).Ok?
    ensures r.Some? ==>
              var claims := VerifyJwt(codec, BearerToken(header), VerifyingSecret(jwtSecretEnv), now).value;
              r.value.userId == claims.sub &&
              (claims.roles.Some? ==> r.value.roles == claims.roles.value) &&
              (claims.roles.None? ==> r.value.roles == [])
  {
    var token := BearerToken(header);
    if token == "" then None
    else match VerifyJwt(codec, token, VerifyingSecret(jwtSecretEnv), now)
      case Ok(claims) => Some(AuthInfo(claims.sub, claims.roles.GetOr([])))
      case Err(_) => None
  }

  /** `attachAuth(req, res, next)`: never rejects; it sets `req.auth` only
      when a token is present and verifies, and calls `next` once. */
  method AttachAuth(req: Request, jwtSecretEnv: Option<string>, codec: JwtCodec, now: int)
    returns (nextCalls: nat)
    modifies req
    ensures nextCalls == 1
    ensures AuthFrom(req.authorization, jwtSecretEnv, codec, now).Some? ==>
              req.auth == AuthFrom(req.authorization, jwtSecretEnv, codec, now)
    ensures AuthFrom(req.authorization, jwtSecretEnv, codec, now).None? ==> req.auth == old(req.auth)
  {
    var token := BearerToken(req.authorization);
    if token == "" {
      return 1;
    }
    var verified := VerifyJwt(codec, token, VerifyingSecret(jwtSecretEnv), now);
    if verified.Ok? {
      req.auth := Some(AuthInfo(verified.value.sub, verified.value.roles.GetOr([])));
    }
    nextCalls := 1;
  }

  /** No header, a header that does not start with exactly "Bearer ", or
      "Bearer " with nothing after it: no identity. */
  lemma NoTokenNoAuth(header: Option<string>, env: Option<string>, codec: JwtCodec, now: int)
    requires header.None? || !(|Scheme| < |header.value| && header.value[..|Scheme|] == Scheme)
    ensures AuthFrom(header, env, codec, now).None?
  {
    if header.Some? && |Scheme| <= |header.value| && header.value[..|Scheme|] == Scheme {
      assert header.value == Scheme;
      assert BearerToken(header) == header.value[|Scheme|..];
    }
  }

  /** The scheme is matched case-sensitively: "bearer " never authenticates. */
  lemma LowercaseSchemeNoAuth(t: string, env: Option<string>, codec: JwtCodec, now: int)
    ensures AuthFrom(Some("bearer " + t), env, codec, now).None?
  {
    assert ("bearer " + t)[0] != Scheme[0];
    NoTokenNoAuth(Some("bearer " + t), env, codec, now);
  }

  /** A token that does not verify leaves the request anonymous. */
  lemma BadTokenNoAuth(t: string, env: Option<string>, codec: JwtCodec, now: int)
    requires VerifyJwt(codec, t, VerifyingSecret(env), now).Err?
    ensures AuthFrom(Some(Scheme + t), env, codec, now).None?
  {
    BearerRoundTrip(t);
  }

  /** A token the auth service signed, presented before expiry while
      JWT_SECRET is set, yields exactly its `sub` and `roles`. */
  lemma SignedTokenAuthenticates(codec: JwtCodec, env: Option<string>, ttl: nat, issued: int,
                                 id: string, roles: seq<string>, now: int)
    requires Faithful(codec)
    requires env.Some? && env.value != ""
    requires now < issued + ttl
    ensures var t := SignJwt(codec, env, ttl, issued, id, roles);
            AuthFrom(Some(Scheme + t), env, codec, now) == Some(AuthInfo(id, roles))
  {
    var t := SignJwt(codec, env, ttl, issued, id, roles);
    BearerRoundTrip(t);
    SignThenVerify(codec, env, ttl, issued, id, roles, VerifyingSecret(env), now);
    var j := Jwt(Claims(id, Some(roles)), SigningSecret(env), issued + ttl);
    assert codec.encode(j) != "";
  }

  /** `requireRole`'s argument: one role name, or a list of them. */
  datatype RequiredRoles = OneRole(name: string) | AnyOf(names: seq<string>)

  /** `Array.isArray(required) ? required : [required]`. */
  function RolesList(required: RequiredRoles): (list: seq<string>)
    ensures required.OneRole? ==> list == [required.name]
    ensures required.AnyOf? ==> list == required.names
  {
    match required
    case OneRole(name) => [name]
    case AnyOf(names) => names
  }

  /** `list.some(role => userRoles.includes(role))`. */
  function HasAnyRole(list: seq<string>, userRoles: seq<string>): (b: bool)
    ensures b <==> exists r :: r in list && r in userRoles
  {
    if |list| == 0 then false
    else
      assert forall r :: r in list <==> r == list[0] || r in list[1..];
      list[0] in userRoles || HasAnyRole(list[1..], userRoles)
  }

  /** The gate's answer: a response with status and error, or `next()`. */
  datatype GateResult = Respond(status: int, error: string) | CallNext

  /** `requireRole(required)` applied to a request with `auth`. */
  function RequireRole(required: RequiredRoles, auth: Option<AuthInfo>): (g: GateResult)
    ensures g == Respond(401, "Unauthorized") <==> auth.None? || auth.value.roles == []
    ensures g == Respond(403, "Forbidden") <==>
              auth.Some? && auth.value.roles != [] &&
              forall r | r in RolesList(required) :: r !in auth.value.roles
    ensures g == CallNext <==>
              auth.Some? && exists r :: r in RolesList(required) && r in auth.value.roles
    ensures g.Respond? ==> g.status in {401, 403}
  {
    if auth.None? || |auth.value.roles| == 0 then Respond(401, "Unauthorized")
    else if !HasAnyRole(RolesList(required), auth.value.roles) then Respond(403, "Forbidden")
    else CallNext
  }

  /** An authenticated user with no roles is Unauthorized, not Forbidden. */
  lemma NoRolesIsUnauthorized(required: RequiredRoles, userId: string)
    ensures RequireRole(required, Some(AuthInfo(userId, []))).status == 401
  {
  }

  /** Example: every `/users` route requires "User" before validating the
      body, so an Admin whose token lacks "User" gets 403 there. */
  lemma AdminWithoutUserForbiddenOnUsers(userId: string)
    ensures RequireRole(OneRole("User"), Some(AuthInfo(userId, ["Admin"]))) == Respond(403, "Forbidden")
  {
    assert "User" != "Admin";
  }

  /** Holding more roles never turns a passed request into a rejected one. */
  lemma MoreRolesStillPass(required: RequiredRoles, userId: string, roles: seq<string>, more: seq<string>)
    requires RequireRole(required, Some(AuthInfo(userId, roles))) == CallNext
    ensures RequireRole(required, Some(AuthInfo(userId, roles + more))) == CallNext
  {
    var r :| r in RolesList(required) && r in roles;
    assert r in roles + more;
  }

  /** A single role and the one-element list behave alike. */
  lemma OneRoleIsSingletonList(name: string, auth: Option<AuthInfo>)
    ensures RequireRole(OneRole(name), auth) == RequireRole(AnyOf([name]), auth)
  {
  }
}
