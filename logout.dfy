/**
 * `POST /api/v1/auth/logout` (src/app/api/v1/auth/logout/route.ts): revokes
 * every token row of the user a parseable token names.
 */
module Logout {
  import opened Wrappers
  import opened Store
  import opened Tokens

  const MissingMessage := "Missing refresh token"
  const InvalidMessage := "Invalid token"

  /** The token table after every row of `userId` is marked revoked. */
  function RevokeAllFor(rows: seq<TokenRow>, userId: string): (r: seq<TokenRow>)
    ensures |r| == |rows|
    ensures forall k | 0 <= k < |rows| && rows[k].userId == userId :: r[k] == rows[k].(revoked := true)
    ensures forall k | 0 <= k < |rows| && rows[k].userId != userId :: r[k] == rows[k]
  {
    if |rows| == 0 then []
    else
      var head := if rows[0].userId == userId then rows[0].(revoked := true) else rows[0];
      [head] + RevokeAllFor(rows[1..], userId)
  }

  /** The logout handler as a function of the store and the Authorization header. */
  function LogoutStep(c: Codec, d: Db, authHeader: Option<string>): Step
  {
    match BearerToken(authHeader)
    case None => Step(Err(401, MissingMessage), d)
    case Some(token) =>
      match ParseJwt(c, token)
      case None => Step(Err(401, InvalidMessage), d)
      case Some(claims) =>
        Step(Ok(200, OkFlag), d.(tokens := RevokeAllFor(d.tokens, claims.sub)))
  }

  /**
   * Logout answers from the header alone: 401 "Missing refresh token" without
   * a Bearer header, 401 "Invalid token" when the token does not parse, and
   * success otherwise, whatever the token table holds (a revoked or expired
   * token still logs out). A refusal changes nothing; a success leaves every
   * collection but the token table as it was.
   */
  lemma LogoutOutcome(c: Codec, d: Db, authHeader: Option<string>)
    ensures var s := LogoutStep(c, d, authHeader);
      && (BearerToken(authHeader).None? ==> s == Step(Err(401, MissingMessage), d))
      && (BearerToken(authHeader).Some? && ParseJwt(c, BearerToken(authHeader).value).None? ==>
            s == Step(Err(401, InvalidMessage), d))
      && (s.resp.Ok? <==> BearerToken(authHeader).Some? && ParseJwt(c, BearerToken(authHeader).value).Some?)
      && (s.resp.Ok? ==> s.resp == Ok(200, OkFlag) && s.after == d.(tokens := s.after.tokens))
  {
  }

  /**
   * After a logout every row of the token's subject is revoked, the rows of
   * other users are unchanged, and the table keeps its length.
   */
  lemma LogoutRevokesSubject(c: Codec, d: Db, authHeader: Option<string>)
    requires LogoutStep(c, d, authHeader).resp.Ok?
    ensures var t := LogoutStep(c, d, authHeader).after.tokens;
      var sub := ParseJwt(c, BearerToken(authHeader).value).value.sub;
      && |t| == |d.tokens|
      && (forall k | 0 <= k < |t| :: t[k].userId == sub ==> t[k].revoked)
      && (forall k | 0 <= k < |t| :: d.tokens[k].userId != sub ==> t[k] == d.tokens[k])
      && RevocationKept(d.tokens, t)
  {
  }

  /** Revoking a user's rows twice is revoking them once. */
  lemma {:induction false} RevokeAllForIdempotent(rows: seq<TokenRow>, userId: string)
    ensures RevokeAllFor(RevokeAllFor(rows, userId), userId) == RevokeAllFor(rows, userId)
  {
    var once := RevokeAllFor(rows, userId);
    var twice := RevokeAllFor(once, userId);
    forall k | 0 <= k < |rows|
      ensures twice[k] == once[k]
    {
      if rows[k].userId == userId {
        assert once[k].userId == userId;
      }
    }
  }

  /** Logging out twice with the same header leaves the same store as once. */
  lemma {:induction false} LogoutIdempotent(c: Codec, d: Db, authHeader: Option<string>)
    ensures var once := LogoutStep(c, d, authHeader).after;
      LogoutStep(c, once, authHeader).after == once
  {
    var s := LogoutStep(c, d, authHeader);
    if s.resp.Ok? {
      RevokeAllForIdempotent(d.tokens, ParseJwt(c, BearerToken(authHeader).value).value.sub);
    }
  }

  /**
   * Logout ends the sessions of its subject: afterwards no token that only
   * rows of that user hold authenticates anybody.
   */
  lemma {:induction false} LogoutEndsSessions(c: Codec, d: Db, authHeader: Option<string>, token: string, now: int)
    requires LogoutStep(c, d, authHeader).resp.Ok?
    requires forall k | 0 <= k < |d.tokens| ::
      d.tokens[k].token == token ==> d.tokens[k].userId == ParseJwt(c, BearerToken(authHeader).value).value.sub
    ensures GetUserFromToken(c, Some("Bearer " + token), now, LogoutStep(c, d, authHeader).after) == None
  {
    var after := LogoutStep(c, d, authHeader).after;
    LogoutRevokesSubject(c, d, authHeader);
    var header := "Bearer " + token;
    assert header[..7] == "Bearer " && header[7..] == token;
    forall k | 0 <= k < |after.tokens|
      ensures !(after.tokens[k].token == token && !after.tokens[k].revoked)
    {
      if after.tokens[k].token == token {
        assert RevocationKept(d.tokens, after.tokens);
        assert d.tokens[k].token == token;
      }
    }
    CallerExactlyNone(c, Some(header), now, after);
  }

  /** Without an unrevoked row holding the token nobody is authenticated. */
  lemma CallerExactlyNone(c: Codec, authHeader: Option<string>, now: int, d: Db)
    requires BearerToken(authHeader).Some?
    requires forall k | 0 <= k < |d.tokens| ::
      !(d.tokens[k].token == BearerToken(authHeader).value && !d.tokens[k].revoked)
    ensures GetUserFromToken(c, authHeader, now, d) == None
  {
  }

  /** The `forEach` over the token rows: each row of `userId`, in turn,
      becomes revoked. */
  method RevokeRows(rows: seq<TokenRow>, userId: string) returns (r: seq<TokenRow>)
    ensures r == RevokeAllFor(rows, userId)
  {
    ghost var target := RevokeAllFor(rows, userId);
    r := rows;
    var k := 0;
    while k < |r|
      invariant 0 <= k <= |r| == |rows|
      invariant forall j | 0 <= j < k :: r[j] == target[j]
      invariant forall j | k <= j < |r| :: r[j] == rows[j]
    {
      if r[k].userId == userId {
        r := r[k := r[k].(revoked := true)];
      }
      k := k + 1;
    }
  }

  /** The handler on the mutable store. */
  method LogoutUser(db: Database, c: Codec, authHeader: Option<string>) returns (r: Response)
    modifies db
    ensures Step(r, db.Snapshot()) == LogoutStep(c, old(db.Snapshot()), authHeader)
  {
    if authHeader.None? || !Strings.StartsWith(authHeader.value, "Bearer ") {
      return Err(401, MissingMessage);
    }
    var token := authHeader.value[7..];
    var payload := ParseJwt(c, token);
    if payload.None? {
      return Err(401, InvalidMessage);
    }
    db.tokens := RevokeRows(db.tokens, payload.value.sub);
    return Ok(200, OkFlag);
  }
}
