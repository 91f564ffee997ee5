/**
 * Bearer tokens (src/app/api/_store/db.ts, makeJwt, parseJwt and
 * getUserFromToken). A token is the compact serialisation of section 7.1 of
 * RFC 7515: three base64url segments joined by '.'. Base64url, JSON and the
 * HMAC-SHA256 signature are library calls; they are the three functions of a
 * `Codec`, of which the model assumes only what `ValidCodec` states.
 */
module Tokens {
  import opened Wrappers
  import opened Strings
  import opened Seqs
  import opened Store

  /** Access tokens live 15 minutes, refresh tokens 30 days (in seconds). */
  const AccessLifetime: int := 900
  const RefreshLifetime: int := 2592000

  /** base64url of the fixed header {"alg":"HS256","typ":"JWT"} */
  const JwtHeader: string := "eyJhbGciOiJIUzI1NiIsInR5cCI6IkpXVCJ9"

  /** The payload claims the handlers read. A claim the JSON lacks, or whose
      value is not a number, is None (`exp * 1000` is then NaN). */
  datatype Claims = Claims(sub: string, typ: string, iat: Option<int>, exp: Option<int>)

  /** Payload encoding (JSON then base64url), its decoding and the signature. */
  datatype Codec = Codec(
    encode: Claims -> string,
    decode: string -> Option<Claims>,
    sign: string -> string)

  /** Base64url output never contains '.', and decoding undoes encoding. */
  ghost predicate ValidCodec(c: Codec)
  {
    && (forall p :: '.' !in c.encode(p) && c.decode(c.encode(p)) == Some(p))
    && (forall m :: '.' !in c.sign(m))
  }

  function TypeName(t: TokenType): string
  {
    match t
    case Access => "access"
    case Refresh => "refresh"
  }

  function Lifetime(t: TokenType): int
  {
    match t
    case Access => AccessLifetime
    case Refresh => RefreshLifetime
  }

  /**
   * The claims makeJwt signs at time `now` (milliseconds): `iat` is the time
   * in whole seconds and `exp` lies the type's lifetime after it. The token's
   * expiry in milliseconds is therefore at most the lifetime after `now`, and
   * less than one second short of it.
   */
  function MintClaims(userId: string, t: TokenType, now: int): (cl: Claims)
    ensures cl.sub == userId && cl.typ == TypeName(t)
    ensures cl.iat.Some? && cl.exp.Some?
    ensures cl.exp.value == cl.iat.value + Lifetime(t)
    ensures cl.iat.value * 1000 <= now < cl.iat.value * 1000 + 1000
    ensures cl.exp.value * 1000 <= now + Lifetime(t) * 1000 < cl.exp.value * 1000 + 1000
  {
    var iat := now / 1000;
    var exp := if t == Access then iat + 900 else iat + 2592000;
    Claims(userId, TypeName(t), Some(iat), Some(exp))
  }

  /** `makeJwt(userId, type)`: header, payload and signature joined by '.'. */
  function MakeJwt(c: Codec, userId: string, t: TokenType, now: int): string
  {
    var signingInput := JwtHeader + "." + c.encode(MintClaims(userId, t, now));
    signingInput + "." + c.sign(signingInput)
  }

  /** `parseJwt(token)`: the decoded middle segment, provided the token has
      exactly three segments; the signature is never checked. */
  function ParseJwt(c: Codec, token: string): Option<Claims>
  {
    var parts := Split(token, '.');
    if |parts| != 3 then None else c.decode(parts[1])
  }

  /** A token that parses has exactly two '.' separators. */
  lemma ParsedHasThreeSegments(c: Codec, token: string)
    requires ParseJwt(c, token).Some?
    ensures Count(token, '.') == 2
  {
  }

  /** Parsing a token makeJwt produced gives back the claims it signed. */
  lemma {:induction false} ParseMakeJwt(c: Codec, userId: string, t: TokenType, now: int)
    requires ValidCodec(c)
    ensures ParseJwt(c, MakeJwt(c, userId, t, now)) == Some(MintClaims(userId, t, now))
  {
    var payload := c.encode(MintClaims(userId, t, now));
    var signingInput := JwtHeader + "." + payload;
    var sig := c.sign(signingInput);
    var parts := [JwtHeader, payload, sig];
    assert '.' !in payload && '.' !in sig;
    assert '.' !in JwtHeader;
    assert Join(parts, '.') == MakeJwt(c, userId, t, now) by {
      assert Join(parts[2..], '.') == sig;
      assert Join(parts[1..], '.') == payload + "." + sig;
    }
    SplitJoin(parts, '.');
  }

  /** The token of an `Authorization: Bearer <token>` header. */
  function BearerToken(authHeader: Option<string>): Option<string>
  {
    if authHeader.Some? && StartsWith(authHeader.value, "Bearer ") then
      Some(authHeader.value[7..])
    else None
  }

  /** `payload.exp * 1000 < Date.now()`; a missing exp never expires. */
  predicate Expired(claims: Claims, now: int)
  {
    claims.exp.Some? && claims.exp.value * 1000 < now
  }

  /** Some unrevoked row of the token table holds exactly this token. */
  predicate Unrevoked(tokens: seq<TokenRow>, token: string)
  {
    FindIndex(tokens, (row: TokenRow) => row.token == token && !row.revoked).Some?
  }

  /** The index of the first user with this id. */
  function UserIndex(users: seq<User>, id: string): Option<nat>
  {
    FindIndex(users, (u: User) => u.id == id)
  }

  /** The first index holding an id is the one UserIndex finds. */
  lemma UserIndexIs(users: seq<User>, id: string, i: nat)
    requires i < |users| && users[i].id == id
    requires forall j | 0 <= j < i :: users[j].id != id
    ensures UserIndex(users, id) == Some(i)
  {
  }

  /**
   * `getUserFromToken(authHeader)`: the caller, when the header holds a
   * Bearer token with three segments, an unexpired `exp`, an unrevoked row in
   * the token table, and a subject that names a user.
   */
  function GetUserFromToken(c: Codec, authHeader: Option<string>, now: int, d: Db): (caller: Option<User>)
    ensures caller.Some? ==> caller.value in d.users
    ensures caller.Some? ==>
      UserIndex(d.users, caller.value.id).Some? && d.users[UserIndex(d.users, caller.value.id).value] == caller.value
  {
    match BearerToken(authHeader)
    case None => None
    case Some(token) =>
      match ParseJwt(c, token)
      case None => None
      case Some(claims) =>
        if Expired(claims, now) || !Unrevoked(d.tokens, token) then None
        else match UserIndex(d.users, claims.sub)
          case None => None
          case Some(i) => Some(d.users[i])
  }

  /**
   * Exactly when getUserFromToken finds a caller: a Bearer header whose token
   * parses, has not expired (`exp * 1000 == now` still counts), matches an
   * unrevoked row of any type, and whose subject is the id of the user found,
   * the first with that id.
   */
  lemma CallerExactly(c: Codec, authHeader: Option<string>, now: int, d: Db, u: User)
    ensures GetUserFromToken(c, authHeader, now, d) == Some(u) <==>
      && BearerToken(authHeader).Some?
      && var token := BearerToken(authHeader).value;
      && ParseJwt(c, token).Some?
      && var claims := ParseJwt(c, token).value;
      && (claims.exp.None? || now <= claims.exp.value * 1000)
      && (exists k | 0 <= k < |d.tokens| :: d.tokens[k].token == token && !d.tokens[k].revoked)
      && (exists i | 0 <= i < |d.users| :: d.users[i] == u && u.id == claims.sub &&
            forall j | 0 <= j < i :: d.users[j].id != claims.sub)
  {
    match BearerToken(authHeader)
    case None =>
    case Some(token) =>
      match ParseJwt(c, token)
      case None =>
      case Some(claims) =>
        var rows := FindIndex(d.tokens, (row: TokenRow) => row.token == token && !row.revoked);
        if rows.Some? {
          var k := rows.value;
          assert d.tokens[k].token == token && !d.tokens[k].revoked;
        }
        var found := UserIndex(d.users, claims.sub);
        if found.Some? {
          var i := found.value;
          assert d.users[i].id == claims.sub;
          if exists i' | 0 <= i' < |d.users| :: d.users[i'] == u && u.id == claims.sub &&
               forall j | 0 <= j < i' :: d.users[j].id != claims.sub {
            var i' :| 0 <= i' < |d.users| && d.users[i'] == u && u.id == claims.sub &&
               forall j | 0 <= j < i' :: d.users[j].id != claims.sub;
            assert i' == i;
          }
        }
  }

  /**
   * A token that makeJwt minted for user u at time `mintedAt`, whose row is in
   * the table unrevoked, authenticates u from `mintedAt` until its `exp`
   * (inclusive), whichever type it has.
   */
  lemma {:induction false} MintedTokenAuthenticates(
    c: Codec, d: Db, u: User, t: TokenType, mintedAt: int, now: int, k: nat)
    requires ValidCodec(c)
    requires u in d.users && IdsUnique(d.users)
    requires k < |d.tokens| && d.tokens[k].token == MakeJwt(c, u.id, t, mintedAt) && !d.tokens[k].revoked
    requires now <= MintClaims(u.id, t, mintedAt).exp.value * 1000
    ensures GetUserFromToken(c, Some("Bearer " + MakeJwt(c, u.id, t, mintedAt)), now, d) == Some(u)
  {
    var token := MakeJwt(c, u.id, t, mintedAt);
    var header := "Bearer " + token;
    assert header[..7] == "Bearer ";
    assert header[7..] == token;
    ParseMakeJwt(c, u.id, t, mintedAt);
    var i :| 0 <= i < |d.users| && d.users[i] == u;
    var found := UserIndex(d.users, u.id);
    assert found.Some?;
    assert found.value == i;
  }

  /** Once its `exp` has passed, a minted token authenticates nobody. */
  lemma {:induction false} MintedTokenExpires(c: Codec, d: Db, userId: string, t: TokenType, mintedAt: int, now: int)
    requires ValidCodec(c)
    requires now > mintedAt + Lifetime(t) * 1000
    ensures GetUserFromToken(c, Some("Bearer " + MakeJwt(c, userId, t, mintedAt)), now, d) == None
  {
    var token := MakeJwt(c, userId, t, mintedAt);
    var header := "Bearer " + token;
    assert header[..7] == "Bearer ";
    assert header[7..] == token;
    ParseMakeJwt(c, userId, t, mintedAt);
  }

  /**
   * The two rows the OTP login and the refresh handler append for a fresh
   * pair: an access row expiring 900 000 ms after `now` and a refresh row
   * expiring 2 592 000 000 ms after it, both for `userId` and unrevoked.
   */
  function IssuedRows(c: Codec, userId: string, now: int): (rows: seq<TokenRow>)
    ensures |rows| == 2
    ensures rows[0].token == MakeJwt(c, userId, Access, now) && rows[0].tokenType == Access
    ensures rows[1].token == MakeJwt(c, userId, Refresh, now) && rows[1].tokenType == Refresh
    ensures forall k | 0 <= k < 2 ::
      rows[k].userId == userId && !rows[k].revoked && rows[k].createdAt == now &&
      rows[k].expiresAt == now + Lifetime(rows[k].tokenType) * 1000
  {
    [TokenRow(MakeJwt(c, userId, Access, now), userId, Access, now, now + 900000, false),
     TokenRow(MakeJwt(c, userId, Refresh, now), userId, Refresh, now, now + 2592000000, false)]
  }
}
