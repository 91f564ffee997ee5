/**
 * `GET` and `PATCH /api/v1/me` (src/app/api/v1/me/route.ts): the caller's
 * profile, and a partial update of five of its fields.
 */
module Me {
  import opened Wrappers
  import opened Seqs
  import opened Store
  import opened Tokens

  const Unauthorized := "Unauthorized"
  const NotFound := "User not found"
  const EmailTaken := "Email already in use"

  /** `GET /me`: the caller's record without its creation time. */
  function GetMeStep(c: Codec, d: Db, authHeader: Option<string>, now: int): Response
  {
    match GetUserFromToken(c, authHeader, now, d)
    case None => Err(401, Unauthorized)
    case Some(user) => Ok(200, ProfileBody(ProfileOf(user)))
  }

  /** GET answers 401 exactly when no caller is found, and otherwise the
      profile of the user the token names. */
  lemma GetMeOutcome(c: Codec, d: Db, authHeader: Option<string>, now: int)
    ensures GetUserFromToken(c, authHeader, now, d).None? ==> GetMeStep(c, d, authHeader, now) == Err(401, Unauthorized)
    ensures GetUserFromToken(c, authHeader, now, d).Some? ==>
      var u := GetUserFromToken(c, authHeader, now, d).value;
      && u in d.users
      && GetMeStep(c, d, authHeader, now) == Ok(200, ProfileBody(ProfileOf(u)))
      && ProfileOf(u).id == u.id && ProfileOf(u).phone == u.phone && ProfileOf(u).email == u.email
  {
  }

  /** The string fields of the PATCH body; None is an absent field. */
  datatype PatchBody = PatchBody(
    firstName: Option<string>,
    lastName: Option<string>,
    nickname: Option<string>,
    email: Option<string>,
    language: Option<string>)

  /** The caller's record with each field the body holds written over it. */
  function Apply(u: User, b: PatchBody): User
  {
    u.(firstName := if b.firstName.Some? then b.firstName else u.firstName,
       lastName := if b.lastName.Some? then b.lastName else u.lastName,
       nickname := if b.nickname.Some? then b.nickname else u.nickname,
       email := if b.email.Some? then b.email else u.email,
       language := if b.language.Some? then b.language.value else u.language)
  }

  /** Another user, by id, already has this email. */
  predicate EmailHeldByOther(users: seq<User>, email: string, callerId: string)
  {
    FindIndex(users, (u: User) => u.email == Some(email) && u.id != callerId).Some?
  }

  /** `PATCH /me` as a function of the store, the header, the time and the body. */
  function PatchMeStep(c: Codec, d: Db, authHeader: Option<string>, now: int, b: PatchBody): Step
  {
    match GetUserFromToken(c, authHeader, now, d)
    case None => Step(Err(401, Unauthorized), d)
    case Some(user) =>
      match UserIndex(d.users, user.id)
      case None => Step(Err(404, NotFound), d)
      case Some(idx) =>
        if Truthy(b.email) && b.email != user.email && EmailHeldByOther(d.users, b.email.value, user.id) then
          Step(Err(409, EmailTaken), d)
        else
          var updated := Apply(d.users[idx], b);
          Step(Ok(200, ProfileBody(ProfileOf(updated))), d.(users := d.users[idx := updated]))
  }

  /**
   * Without a caller PATCH answers 401; with one, the lookup of the caller's
   * row by id always succeeds, so "User not found" is never answered. A
   * non-empty email that differs from the caller's and that another user
   * holds gives 409. Every refusal leaves the store as it was.
   */
  lemma PatchRefusals(c: Codec, d: Db, authHeader: Option<string>, now: int, b: PatchBody)
    ensures var s := PatchMeStep(c, d, authHeader, now, b);
      && (s.resp.Err? ==> s.after == d)
      && s.resp.status != 404
      && (GetUserFromToken(c, authHeader, now, d).None? ==> s.resp == Err(401, Unauthorized))
      && (GetUserFromToken(c, authHeader, now, d).Some? ==>
            var user := GetUserFromToken(c, authHeader, now, d).value;
            (Truthy(b.email) && b.email != user.email &&
             (exists j | 0 <= j < |d.users| :: d.users[j].email == b.email && d.users[j].id != user.id))
            <==> s.resp == Err(409, EmailTaken))
  {
    var caller := GetUserFromToken(c, authHeader, now, d);
    if caller.Some? {
      var user := caller.value;
      var i :| 0 <= i < |d.users| && d.users[i] == user;
      assert UserIndex(d.users, user.id).Some?;
      if Truthy(b.email) {
        var e := b.email.value;
        var f := FindIndex(d.users, (u: User) => u.email == Some(e) && u.id != user.id);
        if f.Some? {
          assert d.users[f.value].email == b.email && d.users[f.value].id != user.id;
        }
      }
    }
  }

  /**
   * A successful PATCH rewrites exactly the caller's row: the five body
   * fields that are present are written and the absent ones kept, while id,
   * phone, date of birth, gender, referrer and creation time stay; every
   * other user, and every other collection, is unchanged. The response is
   * the updated profile.
   */
  lemma PatchUpdatesCaller(c: Codec, d: Db, authHeader: Option<string>, now: int, b: PatchBody)
    requires PatchMeStep(c, d, authHeader, now, b).resp.Ok?
    ensures var s := PatchMeStep(c, d, authHeader, now, b);
      var user := GetUserFromToken(c, authHeader, now, d).value;
      exists idx | 0 <= idx < |d.users| ::
        && d.users[idx] == user
        && s.after == d.(users := d.users[idx := s.after.users[idx]])
        && var v := s.after.users[idx];
        && v.id == user.id && v.phone == user.phone && v.createdAt == user.createdAt
        && v.dateOfBirth == user.dateOfBirth && v.gender == user.gender && v.referrer == user.referrer
        && v.firstName == (if b.firstName.Some? then b.firstName else user.firstName)
        && v.lastName == (if b.lastName.Some? then b.lastName else user.lastName)
        && v.nickname == (if b.nickname.Some? then b.nickname else user.nickname)
        && v.email == (if b.email.Some? then b.email else user.email)
        && v.language == (if b.language.Some? then b.language.value else user.language)
        && s.resp == Ok(200, ProfileBody(ProfileOf(v)))
  {
    var user := GetUserFromToken(c, authHeader, now, d).value;
    var idx := UserIndex(d.users, user.id).value;
    assert d.users[idx] == user;
  }

  /** An empty email skips the uniqueness check and is stored as given. */
  lemma PatchEmptyEmail(c: Codec, d: Db, authHeader: Option<string>, now: int, b: PatchBody)
    requires GetUserFromToken(c, authHeader, now, d).Some?
    requires b.email == Some("")
    ensures var s := PatchMeStep(c, d, authHeader, now, b);
      s.resp.Ok? && exists idx | 0 <= idx < |s.after.users| :: s.after.users[idx].email == Some("")
  {
    var user := GetUserFromToken(c, authHeader, now, d).value;
    var i :| 0 <= i < |d.users| && d.users[i] == user;
    assert UserIndex(d.users, user.id).Some?;
    var idx := UserIndex(d.users, user.id).value;
    assert PatchMeStep(c, d, authHeader, now, b).after.users[idx].email == Some("");
  }

  /** Writing the same body twice writes it once. */
  lemma ApplyIdempotent(u: User, b: PatchBody)
    ensures Apply(Apply(u, b), b) == Apply(u, b)
  {
  }

  /**
   * PATCH is idempotent: sending the same body again with the same token
   * succeeds and leaves the store as the first request left it.
   */
  lemma {:induction false} PatchIdempotent(c: Codec, d: Db, authHeader: Option<string>, now: int, b: PatchBody)
    requires PatchMeStep(c, d, authHeader, now, b).resp.Ok?
    ensures var once := PatchMeStep(c, d, authHeader, now, b).after;
      PatchMeStep(c, once, authHeader, now, b) == Step(PatchMeStep(c, d, authHeader, now, b).resp, once)
  {
    var user := GetUserFromToken(c, authHeader, now, d).value;
    var idx := UserIndex(d.users, user.id).value;
    var updated := Apply(d.users[idx], b);
    var once := PatchMeStep(c, d, authHeader, now, b).after;
    assert once.users == d.users[idx := updated] && once.tokens == d.tokens;
    var claims := ParseJwt(c, BearerToken(authHeader).value).value;
    assert claims.sub == user.id;
    forall j | 0 <= j < idx
      ensures once.users[j].id != user.id
    {
      assert once.users[j] == d.users[j];
      assert d.users[j].id != user.id;
    }
    UserIndexIs(once.users, user.id, idx);
    assert GetUserFromToken(c, authHeader, now, once) == Some(updated);
    ApplyIdempotent(d.users[idx], b);
  }

  /**
   * PATCH keeps phones and ids unique, and keeps non-empty emails unique when
   * ids are unique (the conflict check identifies other users by id).
   */
  lemma {:induction false} PatchKeepsUsersUnique(c: Codec, d: Db, authHeader: Option<string>, now: int, b: PatchBody)
    requires PhonesUnique(d.users) && EmailsUnique(d.users) && IdsUnique(d.users)
    ensures var after := PatchMeStep(c, d, authHeader, now, b).after;
      PhonesUnique(after.users) && EmailsUnique(after.users) && IdsUnique(after.users)
  {
    var s := PatchMeStep(c, d, authHeader, now, b);
    if s.resp.Ok? {
      PatchUpdatesCaller(c, d, authHeader, now, b);
      PatchRefusals(c, d, authHeader, now, b);
      var user := GetUserFromToken(c, authHeader, now, d).value;
      var idx :| 0 <= idx < |d.users| && d.users[idx] == user &&
                 s.after == d.(users := d.users[idx := s.after.users[idx]]) &&
                 s.after.users[idx].id == user.id && s.after.users[idx].phone == user.phone &&
                 s.after.users[idx].email == (if b.email.Some? then b.email else user.email);
      var users := s.after.users;
      forall i, j | 0 <= i < j < |users|
        ensures users[i].phone != users[j].phone && users[i].id != users[j].id
        ensures users[i].email.Some? && users[i].email.value != "" ==> users[i].email != users[j].email
      {
        assert users[i].id == d.users[i].id && users[j].id == d.users[j].id;
        assert users[i].phone == d.users[i].phone && users[j].phone == d.users[j].phone;
        if i != idx && j != idx {
          assert users[i] == d.users[i] && users[j] == d.users[j];
        }
      }
    }
  }

  /** The handler on the mutable store: in-place writes to the caller's row. */
  method PatchMe(db: Database, c: Codec, authHeader: Option<string>, now: int, b: PatchBody) returns (r: Response)
    modifies db
    ensures Step(r, db.Snapshot()) == PatchMeStep(c, old(db.Snapshot()), authHeader, now, b)
  {
    var caller := GetUserFromToken(c, authHeader, now, db.Snapshot());
    if caller.None? {
      return Err(401, Unauthorized);
    }
    var user := caller.value;
    var found := FindIndex(db.users, (u: User) => u.id == user.id);
    if found.None? {
      return Err(404, NotFound);
    }
    var idx := found.value;
    if b.email.Some? && b.email.value != "" && b.email != user.email {
      var email := b.email.value;
      if FindIndex(db.users, (u: User) => u.email == Some(email) && u.id != user.id).Some? {
        return Err(409, EmailTaken);
      }
    }
    var row := db.users[idx];
    if b.firstName.Some? { row := row.(firstName := b.firstName); }
    if b.lastName.Some? { row := row.(lastName := b.lastName); }
    if b.nickname.Some? { row := row.(nickname := b.nickname); }
    if b.email.Some? { row := row.(email := b.email); }
    if b.language.Some? { row := row.(language := b.language.value); }
    db.users := db.users[idx := row];
    return Ok(200, ProfileBody(ProfileOf(row)));
  }
}
