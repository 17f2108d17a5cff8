/** The two foreign libraries the core calls: bcrypt for password hashes and
    jsonwebtoken for bearer tokens. Both are kept abstract: a password hash
    is a value that only `Verify` inspects, and the compact token text is
    produced and parsed by a codec given as a parameter. */
module Crypto {
  import opened Wrappers

  /** `SALT_ROUNDS` in auth.service.ts and user.service.ts. */
  const SaltRounds := 10

  /** bcrypt reads at most this many bytes of the password's UTF-8 encoding
      and ignores the rest. */
  const MaxKeyBytes := 72

  /** The UTF-8 encoding of one character (a Unicode scalar value), as byte
      values: one byte below U+0080, then two, three or four. */
  function EncodeChar(c: char): (b: seq<int>)
    ensures 1 <= |b| <= 4
    ensures forall i :: 0 <= i < |b| ==> 0 <= b[i] < 256
  {
    var n := c as int;
    if n < 0x80 then [n]
    else if n < 0x800 then [0xC0 + n / 64, 0x80 + n % 64]
    else if n < 0x1_0000 then [0xE0 + n / 64 / 64, 0x80 + n / 64 % 64, 0x80 + n % 64]
    else [0xF0 + n / 64 / 64 / 64, 0x80 + n / 64 / 64 % 64, 0x80 + n / 64 % 64, 0x80 + n % 64]
  }

  /** The UTF-8 encoding of a string: at least one and at most four bytes per character. */
  function Utf8(s: string): (b: seq<int>)
    ensures |s| <= |b| <= 4 * |s|
  {
    if s == [] then [] else EncodeChar(s[0]) + Utf8(s[1..])
  }

  /** Encodings of strings concatenate. */
  lemma {:induction false} Utf8Append(s: string, t: string)
    ensures Utf8(s + t) == Utf8(s) + Utf8(t)
  {
    if s == [] {
      assert s + t == t;
    } else {
      assert (s + t)[0] == s[0] && (s + t)[1..] == s[1..] + t;
      Utf8Append(s[1..], t);
    }
  }

  /** A character's encoding is never a prefix of another's: the lead byte
      fixes the length, and the bytes fix the code point. */
  lemma EncodeCharPrefixFree(c: char, d: char, r1: seq<int>, r2: seq<int>)
    requires EncodeChar(c) + r1 == EncodeChar(d) + r2
    ensures c == d && r1 == r2
  {
    var a, b := EncodeChar(c), EncodeChar(d);
    assert a[0] == (a + r1)[0] == (b + r2)[0] == b[0];
    var n, m := c as int, d as int;
    assert |a| == |b|;
    assert a == (a + r1)[..|a|] == (b + r2)[..|b|] == b;
    if n >= 0x80 {
      assert n / 64 % 64 == m / 64 % 64 || n < 0x800;
      assert n % 64 == m % 64;
      assert n / 64 == m / 64 by {
        if n >= 0x800 {
          assert n / 64 / 64 == m / 64 / 64 by {
            if n >= 0x1_0000 {
              assert n / 64 / 64 / 64 == m / 64 / 64 / 64;
            }
          }
        }
      }
    }
    assert n == m;
    assert r1 == (a + r1)[|a|..] == (b + r2)[|b|..] == r2;
  }

  /** UTF-8 is injective: two strings with the same encoding are equal. */
  lemma {:induction false} Utf8Injective(p: string, q: string)
    requires Utf8(p) == Utf8(q)
    ensures p == q
  {
    if p != [] && q != [] {
      EncodeCharPrefixFree(p[0], q[0], Utf8(p[1..]), Utf8(q[1..]));
      Utf8Injective(p[1..], q[1..]);
      assert p == [p[0]] + p[1..];
      assert q == [q[0]] + q[1..];
    }
  }

  /** The bytes bcrypt actually reads: the first 72 of the UTF-8 encoding. */
  function BcryptKey(plain: string): (k: seq<int>)
    ensures |k| <= MaxKeyBytes
    ensures k <= Utf8(plain)
    ensures |Utf8(plain)| <= MaxKeyBytes ==> k == Utf8(plain)
  {
    var b := Utf8(plain);
    if |b| <= MaxKeyBytes then b else b[..MaxKeyBytes]
  }

  /** A bcrypt digest: its cost and the key bytes bcrypt's one-way function
      commits to. Nothing in the model reads the key except `Verify`. */
  datatype PasswordHash = Bcrypt(cost: nat, key: seq<int>)

  /** `hashPassword(plain)`. */
  function Hash(plain: string): (h: PasswordHash)
    ensures Verify(plain, h)
    ensures h.cost == SaltRounds
    ensures |h.key| <= MaxKeyBytes
  {
    Bcrypt(SaltRounds, BcryptKey(plain))
  }

  /** `verifyPassword(plain, hash)`: never throws, answers false on mismatch.
      The digest commits to a prefix of the password's encoding, and to all
      of it when that prefix is shorter than bcrypt's limit. */
  predicate Verify(plain: string, h: PasswordHash)
    ensures Verify(plain, h) ==> h.key <= Utf8(plain)
    ensures Verify(plain, h) && |h.key| < MaxKeyBytes ==> h.key == Utf8(plain)
  {
    h.key == BcryptKey(plain)
  }

  /** Up to bcrypt's 72-byte limit, a hash verifies exactly the password it
      was made from. */
  lemma ShortPasswordVerifiesOnlyItself(p: string, q: string)
    requires |Utf8(p)| <= MaxKeyBytes && |Utf8(q)| <= MaxKeyBytes
    ensures Verify(q, Hash(p)) <==> q == p
  {
    if Verify(q, Hash(p)) {
      Utf8Injective(p, q);
    }
  }

  /** Past the limit, only the first 72 bytes count: two passwords whose
      encodings agree there verify against each other's hash. */
  lemma BytesPastLimitIgnored(p: string, q: string)
    requires MaxKeyBytes <= |Utf8(p)| && MaxKeyBytes <= |Utf8(q)|
    requires Utf8(p)[..MaxKeyBytes] == Utf8(q)[..MaxKeyBytes]
    ensures Verify(q, Hash(p)) && Verify(p, Hash(q))
  {
    assert BcryptKey(p) == Utf8(p)[..MaxKeyBytes];
    assert BcryptKey(q) == Utf8(q)[..MaxKeyBytes];
  }

  /** 36 copies of 'é' take two bytes each. */
  lemma {:induction false} Utf8OfAcuteRun(n: nat)
    ensures |Utf8(seq(n, _ => 'é'))| == 2 * n
  {
    if n > 0 {
      assert seq(n, _ => 'é')[1..] == seq(n - 1, _ => 'é');
      Utf8OfAcuteRun(n - 1);
    }
  }

  /** Two distinct 37-character passwords, within the schemas' 8..70 bound,
      that differ only in their 73rd byte: each verifies against the other's hash. */
  lemma TwinPasswords() returns (p: string, q: string)
    ensures p != q && |p| == |q| == 37
    ensures Verify(q, Hash(p)) && Verify(p, Hash(q))
  {
    var run := seq(36, _ => 'é');
    p, q := run + "a", run + "b";
    assert p[36] != q[36];
    Utf8OfAcuteRun(36);
    Utf8Append(run, "a");
    Utf8Append(run, "b");
    assert Utf8(p)[..MaxKeyBytes] == Utf8(run) == Utf8(q)[..MaxKeyBytes];
    BytesPastLimitIgnored(p, q);
  }

  /** The claims `signJwt` puts into a token and `attachAuth` reads back. A
      token signed elsewhere may lack `roles`. */
  datatype Claims = Claims(sub: string, roles: Option<seq<string>>)

  /** A signed token: its claims, the key that signed it and its `exp`
      (seconds since the epoch). */
  datatype Jwt = Jwt(claims: Claims, key: string, exp: int)

  /** jsonwebtoken's compact serialisation, which the model does not spell
      out: `encode` produces the token text and `decode` parses it. */
  datatype JwtCodec = JwtCodec(encode: Jwt -> string, decode: string -> Option<Jwt>)

  /** The codec parses back what it produced, and what it produces is never
      empty (a compact token always has three dot-separated parts). */
  ghost predicate Faithful(codec: JwtCodec) {
    forall j: Jwt {:trigger codec.encode(j)} :: codec.decode(codec.encode(j)) == Some(j) && codec.encode(j) != ""
  }

  datatype JwtError = Malformed | InvalidSignature | Expired

  /** `jwt.verify(token, secret)` at clock `now`: the text must parse, the key
      must be the one given, and the clock must be before `exp`. */
  function VerifyJwt(codec: JwtCodec, token: string, secret: string, now: int): (r: Result<Claims, JwtError>)
    ensures r.Ok? <==> exists j :: codec.decode(token) == Some(j) && j.key == secret && now < j.exp
    ensures r.Ok? ==> codec.decode(token).Some? && r.value == codec.decode(token).value.claims
  {
    match codec.decode(token)
    case None => Err(Malformed)
    case Some(j) =>
      if j.key != secret then Err(InvalidSignature)
      else if now >= j.exp then Err(Expired)
      else Ok(j.claims)
  }

  /** `process.env.X || fallback`: an unset or empty variable gives the fallback. */
  function EnvOr(env: Option<string>, fallback: string): (s: string)
    ensures env.Some? && env.value != "" ==> s == env.value
    ensures env.None? || env.value == "" ==> s == fallback
  {
    if env.Some? && env.value != "" then env.value else fallback
  }

  /** The fallback secret of `signJwt` (auth.service.ts). */
  const SigningFallback := "i-am-an-idiot"
  /** The fallback secret of `attachAuth` (middlewares/auth.ts). */
  const VerifyingFallback := "dev-secret-change-me"

  /** `expiresIn: "7d"`, in seconds; parsing the setting is not modelled. */
  const DefaultTtl := 7 * 24 * 60 * 60

  /** The key `attachAuth` verifies with: JWT_SECRET when set, never empty. */
  function VerifyingSecret(jwtSecretEnv: Option<string>): (s: string)
    ensures s != ""
    ensures jwtSecretEnv.Some? && jwtSecretEnv.value != "" ==> s == jwtSecretEnv.value
  {
    EnvOr(jwtSecretEnv, VerifyingFallback)
  }

  /** The key `signJwt` signs with: never empty, and the middleware's key
      exactly when JWT_SECRET is set. */
  function SigningSecret(jwtSecretEnv: Option<string>): (s: string)
    ensures s != ""
    ensures s == VerifyingSecret(jwtSecretEnv) <==> jwtSecretEnv.Some? && jwtSecretEnv.value != ""
  {
    EnvOr(jwtSecretEnv, SigningFallback)
  }

  /** `signJwt({id, roles})` at clock `now` with lifetime `ttl`: the token
      carries `sub` and `roles` and nothing else (no tenant claim). */
  function SignJwt(codec: JwtCodec, jwtSecretEnv: Option<string>, ttl: nat, now: int,
                   id: string, roles: seq<string>): (t: string)
    ensures Faithful(codec) ==> t != ""
    ensures Faithful(codec) ==>
              codec.decode(t) == Some(Jwt(Claims(id, Some(roles)), SigningSecret(jwtSecretEnv), now + ttl))
  {
    codec.encode(Jwt(Claims(id, Some(roles)), SigningSecret(jwtSecretEnv), now + ttl))
  }

  /** Round trip: before it expires, a signed token verifies under the
      signing secret and yields exactly the claims `{sub: id, roles}`, roles
      in the same order; after expiry, or under any other key, it fails. */
  lemma SignThenVerify(codec: JwtCodec, env: Option<string>, ttl: nat, now: int, id: string,
                       roles: seq<string>, secret: string, later: int)
    requires Faithful(codec)
    ensures var t := SignJwt(codec, env, ttl, now, id, roles);
            VerifyJwt(codec, t, secret, later) ==
              if secret != SigningSecret(env) then Err(InvalidSignature)
              else if later >= now + ttl then Err(Expired)
              else Ok(Claims(id, Some(roles)))
  {
    var j := Jwt(Claims(id, Some(roles)), SigningSecret(env), now + ttl);
    assert codec.decode(codec.encode(j)) == Some(j);
  }

  /** When JWT_SECRET is unset (or empty) the two fallbacks differ, so a
      token issued by the auth service never verifies in the middleware. */
  lemma FallbackSecretsDisagree(codec: JwtCodec, env: Option<string>, ttl: nat, now: int,
                                id: string, roles: seq<string>, later: int)
    requires Faithful(codec)
    requires env.None? || env.value == ""
    ensures VerifyJwt(codec, SignJwt(codec, env, ttl, now, id, roles), VerifyingSecret(env), later)
            == Err(InvalidSignature)
  {
    SignThenVerify(codec, env, ttl, now, id, roles, VerifyingSecret(env), later);
  }
}
