/**
 * `POST /api/v1/auth/refresh` (src/app/api/v1/auth/refresh/route.ts):
 * exchanges an unrevoked, unexpired refresh token for a new access/refresh
 * pair, revoking the row of the old one.
 */
module Refresh {
  import opened Wrappers
  import opened Seqs
  import opened Store
  import opened Tokens

  const MissingMessage := "Missing refresh token"
  const InvalidMessage := "Invalid refresh token"
  const RevokedMessage := "Refresh token has been revoked"
  const ExpiredMessage := "Refresh token expired"

  /** A row that lets `token` be refreshed: same string, refresh type, not revoked. */
  predicate RefreshableRow(row: TokenRow, token: string)
  {
    row.token == token && row.tokenType == Refresh && !row.revoked
  }

  /** The refresh handler as a function of the store, the Authorization
      header and the time. */
  function RefreshStep(c: Codec, d: Db, authHeader: Option<string>, now: int): Step
  {
    match BearerToken(authHeader)
    case None => Step(Err(401, MissingMessage), d)
    case Some(token) =>
      match ParseJwt(c, token)
      case None => Step(Err(401, InvalidMessage), d)
      case Some(claims) =>
        match FindIndex(d.tokens, (row: TokenRow) => RefreshableRow(row, token))
        case None => Step(Err(401, RevokedMessage), d)
        case Some(i) =>
          if d.tokens[i].expiresAt < now then Step(Err(401, ExpiredMessage), d)
          else
            var rows := IssuedRows(c, claims.sub, now);
            Step(Ok(200, TokenPair(rows[0].token, rows[1].token)),
                 d.(tokens := d.tokens[i := d.tokens[i].(revoked := true)] + rows))
  }

  /**
   * Every refusal is a 401 that leaves the store as it was, with the reason
   * named in the order the handler checks: no Bearer header, a token that
   * does not parse, no unrevoked refresh row holding the token, then an
   * expired row.
   */
  lemma RefreshRefusals(c: Codec, d: Db, authHeader: Option<string>, now: int)
    ensures var s := RefreshStep(c, d, authHeader, now);
      && (s.resp.Err? ==> s.resp.status == 401 && s.after == d)
      && (BearerToken(authHeader).None? ==> s.resp == Err(401, MissingMessage))
      && (BearerToken(authHeader).Some? && ParseJwt(c, BearerToken(authHeader).value).None? ==>
            s.resp == Err(401, InvalidMessage))
      && (BearerToken(authHeader).Some? && ParseJwt(c, BearerToken(authHeader).value).Some? &&
          (forall k | 0 <= k < |d.tokens| :: !RefreshableRow(d.tokens[k], BearerToken(authHeader).value)) ==>
            s.resp == Err(401, RevokedMessage))
  {
  }

  /**
   * A refresh succeeds exactly when the header carries a token that parses
   * and the first unrevoked refresh row holding it has not expired
   * (`expiresAt == now` is still accepted). The old row, and only it, is
   * revoked; two new rows for the token's subject are appended, access then
   * refresh; they are the pair returned, and nothing else changes.
   */
  lemma RefreshRotates(c: Codec, d: Db, authHeader: Option<string>, now: int)
    ensures var s := RefreshStep(c, d, authHeader, now);
      s.resp.Ok? <==>
        && BearerToken(authHeader).Some?
        && ParseJwt(c, BearerToken(authHeader).value).Some?
        && exists i | 0 <= i < |d.tokens| ::
             && RefreshableRow(d.tokens[i], BearerToken(authHeader).value)
             && (forall j | 0 <= j < i :: !RefreshableRow(d.tokens[j], BearerToken(authHeader).value))
             && now <= d.tokens[i].expiresAt
    ensures var s := RefreshStep(c, d, authHeader, now);
      s.resp.Ok? ==>
        var sub := ParseJwt(c, BearerToken(authHeader).value).value.sub;
        exists i | 0 <= i < |d.tokens| ::
          && RefreshableRow(d.tokens[i], BearerToken(authHeader).value)
          && (forall j | 0 <= j < i :: !RefreshableRow(d.tokens[j], BearerToken(authHeader).value))
          && s.after == d.(tokens := d.tokens[i := d.tokens[i].(revoked := true)] + IssuedRows(c, sub, now))
          && s.resp == Ok(200, TokenPair(MakeJwt(c, sub, Access, now), MakeJwt(c, sub, Refresh, now)))
  {
    var s := RefreshStep(c, d, authHeader, now);
    if BearerToken(authHeader).Some? && ParseJwt(c, BearerToken(authHeader).value).Some? {
      var token := BearerToken(authHeader).value;
      var f := FindIndex(d.tokens, (row: TokenRow) => RefreshableRow(row, token));
      if f.Some? {
        var i := f.value;
        assert RefreshableRow(d.tokens[i], token);
        if exists i' | 0 <= i' < |d.tokens| ::
             && RefreshableRow(d.tokens[i'], token)
             && (forall j | 0 <= j < i' :: !RefreshableRow(d.tokens[j], token))
             && now <= d.tokens[i'].expiresAt {
          var i' :| 0 <= i' < |d.tokens| && RefreshableRow(d.tokens[i'], token) &&
                    (forall j | 0 <= j < i' :: !RefreshableRow(d.tokens[j], token)) &&
                    now <= d.tokens[i'].expiresAt;
          assert i' == i;
        }
      }
    }
  }

  /** Every row holds a token that parses to claims of the row's own type,
      as every row the login and refresh handlers append does. */
  ghost predicate RowsTyped(c: Codec, tokens: seq<TokenRow>)
  {
    forall k | 0 <= k < |tokens| ::
      ParseJwt(c, tokens[k].token).Some? && ParseJwt(c, tokens[k].token).value.typ == TypeName(tokens[k].tokenType)
  }

  /** The rows issued for a new pair are typed. */
  lemma {:induction false} IssuedRowsTyped(c: Codec, userId: string, now: int)
    requires ValidCodec(c)
    ensures RowsTyped(c, IssuedRows(c, userId, now))
  {
    ParseMakeJwt(c, userId, Access, now);
    ParseMakeJwt(c, userId, Refresh, now);
  }

  /** A refresh keeps every row typed. */
  lemma {:induction false} RefreshKeepsRowsTyped(c: Codec, d: Db, authHeader: Option<string>, now: int)
    requires ValidCodec(c) && RowsTyped(c, d.tokens)
    ensures RowsTyped(c, RefreshStep(c, d, authHeader, now).after.tokens)
  {
    var s := RefreshStep(c, d, authHeader, now);
    if s.resp.Ok? {
      RefreshRotates(c, d, authHeader, now);
      var sub := ParseJwt(c, BearerToken(authHeader).value).value.sub;
      IssuedRowsTyped(c, sub, now);
      var rows := IssuedRows(c, sub, now);
      var i :| 0 <= i < |d.tokens| && RefreshableRow(d.tokens[i], BearerToken(authHeader).value) &&
               s.after.tokens == d.tokens[i := d.tokens[i].(revoked := true)] + rows;
      var t := s.after.tokens;
      forall k | 0 <= k < |t|
        ensures ParseJwt(c, t[k].token).Some? && ParseJwt(c, t[k].token).value.typ == TypeName(t[k].tokenType)
      {
        if k >= |d.tokens| {
          assert t[k] == rows[k - |d.tokens|];
        } else if k == i {
          assert t[k].token == d.tokens[k].token && t[k].tokenType == d.tokens[k].tokenType;
        } else {
          assert t[k] == d.tokens[k];
        }
      }
    }
  }

  /**
   * An access token never refreshes: when every row is typed, a token whose
   * claims say "access" is held by no refresh row, so the handler answers
   * 401 "Refresh token has been revoked" and changes nothing.
   */
  lemma {:induction false} AccessTokenNeverRefreshes(c: Codec, d: Db, token: string, now: int)
    requires RowsTyped(c, d.tokens)
    requires ParseJwt(c, token).Some? && ParseJwt(c, token).value.typ == TypeName(Access)
    ensures RefreshStep(c, d, Some("Bearer " + token), now) == Step(Err(401, RevokedMessage), d)
  {
    var header := "Bearer " + token;
    assert header[..7] == "Bearer " && header[7..] == token;
    assert TypeName(Refresh) != TypeName(Access);
    forall k | 0 <= k < |d.tokens|
      ensures !RefreshableRow(d.tokens[k], token)
    {
      if d.tokens[k].token == token {
        assert d.tokens[k].tokenType != Refresh;
      }
    }
  }

  /** Existing rows are kept in place; the only change to one is a revocation. */
  lemma RefreshKeepsRevocation(c: Codec, d: Db, authHeader: Option<string>, now: int)
    ensures RevocationKept(d.tokens, RefreshStep(c, d, authHeader, now).after.tokens)
  {
    var s := RefreshStep(c, d, authHeader, now);
    if s.resp.Ok? {
      RefreshRotates(c, d, authHeader, now);
    }
  }

  /**
   * Rotation: when the consumed row was the only unrevoked refresh row with
   * the old token, and the newly minted refresh token differs from the old
   * one, presenting the old token again, at any later time, fails with 401
   * "Refresh token has been revoked".
   */
  lemma {:induction false} SecondRefreshFails(c: Codec, d: Db, token: string, now: int, later: int)
    requires RefreshStep(c, d, Some("Bearer " + token), now).resp.Ok?
    requires forall j, k | 0 <= j < k < |d.tokens| ::
      RefreshableRow(d.tokens[j], token) ==> !RefreshableRow(d.tokens[k], token)
    requires MakeJwt(c, ParseJwt(c, token).value.sub, Refresh, now) != token
    ensures var after := RefreshStep(c, d, Some("Bearer " + token), now).after;
      RefreshStep(c, after, Some("Bearer " + token), later) == Step(Err(401, RevokedMessage), after)
  {
    var header := Some("Bearer " + token);
    assert header.value[..7] == "Bearer " && header.value[7..] == token;
    RefreshRotates(c, d, header, now);
    var sub := ParseJwt(c, token).value.sub;
    var s := RefreshStep(c, d, header, now);
    var rows := IssuedRows(c, sub, now);
    var i :| 0 <= i < |d.tokens| && RefreshableRow(d.tokens[i], token) &&
             s.after.tokens == d.tokens[i := d.tokens[i].(revoked := true)] + rows;
    var t := s.after.tokens;
    forall k | 0 <= k < |t|
      ensures !RefreshableRow(t[k], token)
    {
      if k >= |d.tokens| {
        assert t[k] == rows[k - |d.tokens|];
      } else if k != i {
        assert t[k] == d.tokens[k];
        if k < i {
          assert !RefreshableRow(d.tokens[k], token);
        } else {
          assert !RefreshableRow(d.tokens[k], token);
        }
      }
    }
  }

  /**
   * The rotation hypothesis above is needed: a refresh token minted in the
   * same second as the refresh is the very string the refresh mints again,
   * so after a successful refresh the old token still refreshes, even when
   * the consumed row was the only one holding it.
   */
  lemma {:induction false} SameSecondReplay(c: Codec, d: Db, userId: string, mintedAt: int, now: int)
    requires ValidCodec(c)
    requires mintedAt / 1000 == now / 1000
    requires forall j, k | 0 <= j < k < |d.tokens| ::
      RefreshableRow(d.tokens[j], MakeJwt(c, userId, Refresh, mintedAt)) ==>
      !RefreshableRow(d.tokens[k], MakeJwt(c, userId, Refresh, mintedAt))
    requires RefreshStep(c, d, Some("Bearer " + MakeJwt(c, userId, Refresh, mintedAt)), now).resp.Ok?
    ensures var header := Some("Bearer " + MakeJwt(c, userId, Refresh, mintedAt));
      var after := RefreshStep(c, d, header, now).after;
      RefreshStep(c, after, header, now).resp.Ok?
  {
    var token := MakeJwt(c, userId, Refresh, mintedAt);
    var header := Some("Bearer " + token);
    assert header.value[..7] == "Bearer " && header.value[7..] == token;
    ParseMakeJwt(c, userId, Refresh, mintedAt);
    assert MintClaims(userId, Refresh, mintedAt) == MintClaims(userId, Refresh, now);
    assert MakeJwt(c, userId, Refresh, now) == token;
    var s := RefreshStep(c, d, header, now);
    var rows := IssuedRows(c, userId, now);
    var f := FindIndex(d.tokens, (row: TokenRow) => RefreshableRow(row, token));
    var i := f.value;
    assert RefreshableRow(d.tokens[i], token);
    assert s.after.tokens == d.tokens[i := d.tokens[i].(revoked := true)] + rows;
    var t := s.after.tokens;
    var k := |d.tokens| + 1;
    assert t[k] == rows[1] && RefreshableRow(t[k], token);
    forall m | 0 <= m < k
      ensures !RefreshableRow(t[m], token)
    {
      if m == |d.tokens| {
        assert t[m] == rows[0];
      } else if m != i {
        assert t[m] == d.tokens[m];
      }
    }
    assert FindIndex(t, (row: TokenRow) => RefreshableRow(row, token)) == Some(k);
  }

  /** The handler on the mutable store: the in-place revocation, then two pushes. */
  method RefreshTokens(db: Database, c: Codec, authHeader: Option<string>, now: int) returns (r: Response)
    modifies db
    ensures Step(r, db.Snapshot()) == RefreshStep(c, old(db.Snapshot()), authHeader, now)
  {
    if authHeader.None? || !Strings.StartsWith(authHeader.value, "Bearer ") {
      return Err(401, MissingMessage);
    }
    var oldToken := authHeader.value[7..];
    var payload := ParseJwt(c, oldToken);
    if payload.None? {
      return Err(401, InvalidMessage);
    }
    var found := FindIndex(db.tokens, (row: TokenRow) => RefreshableRow(row, oldToken));
    if found.None? {
      return Err(401, RevokedMessage);
    }
    var i := found.value;
    if db.tokens[i].expiresAt < now {
      return Err(401, ExpiredMessage);
    }
    db.tokens := db.tokens[i := db.tokens[i].(revoked := true)];
    var sub := payload.value.sub;
    var accessToken := MakeJwt(c, sub, Access, now);
    var refreshToken := MakeJwt(c, sub, Refresh, now);
    db.tokens := db.tokens + [
      TokenRow(accessToken, sub, Access, now, now + 900000, false),
      TokenRow(refreshToken, sub, Refresh, now, now + 2592000000, false)];
    return Ok(200, TokenPair(accessToken, refreshToken));
  }
}
