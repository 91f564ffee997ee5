/**
 * `POST /api/v1/auth/otp/verify` (src/app/api/v1/auth/otp/verify/route.ts):
 * consumes a one-time code, finds or creates the user with that phone and
 * issues an access/refresh token pair. The id of a created user comes from
 * `uuid()`, a random source, and is a parameter here.
 */
module OtpVerify {
  import opened Wrappers
  import opened Seqs
  import opened Store
  import opened Tokens

  /** A code is accepted for 300 000 ms (5 minutes) after it was issued. */
  const OtpValidityMs: int := 300000

  predicate Matches(o: Otp, phone: string, code: string)
  {
    o.phone == phone && o.code == code
  }

  /** A row that accepts this phone and code now. */
  predicate Usable(o: Otp, phone: string, code: string, now: int)
  {
    Matches(o, phone, code) && !o.used && now - o.createdAt < OtpValidityMs
  }

  predicate ExpiredMatch(o: Otp, phone: string, code: string, now: int)
  {
    Matches(o, phone, code) && !o.used && now - o.createdAt >= OtpValidityMs
  }

  predicate UsedMatch(o: Otp, phone: string, code: string)
  {
    Matches(o, phone, code) && o.used
  }

  const ExpiredMessage := "Code expired (OTP codes expire after 5 minutes)"
  const UsedMessage := "Code already used"
  const InvalidMessage := "Invalid or expired OTP code"

  /** The user created on a first login: only id, phone and language "en". */
  function NewUser(id: string, phone: string, now: int): User
  {
    User(id, phone, None, None, None, None, "en", None, None, None, now)
  }

  /**
   * The user with this phone, or a new one appended after all others: the
   * users already stored are kept as they are, and a user is added exactly
   * when none has the phone.
   */
  function FindOrCreate(users: seq<User>, phone: string, newId: string, now: int): (r: (User, seq<User>))
    ensures r.0.phone == phone && r.0 in r.1
    ensures (exists i | 0 <= i < |users| :: users[i].phone == phone) ==> r.1 == users
    ensures (forall i | 0 <= i < |users| :: users[i].phone != phone) ==>
      r.1 == users + [NewUser(newId, phone, now)] && r.0 == NewUser(newId, phone, now)
  {
    match FindIndex(users, (u: User) => u.phone == phone)
    case Some(i) => (users[i], users)
    case None => (NewUser(newId, phone, now), users + [NewUser(newId, phone, now)])
  }

  /** The verify handler as a function of the store, the body's `phone` and
      `code`, the time and the id a new user would get. */
  function VerifyStep(c: Codec, d: Db, phone: Option<string>, code: Option<string>, now: int, newUserId: string): Step
  {
    if phone.None? || phone.value == "" || code.None? || code.value == "" then
      Step(Err(400, "Phone and code are required"), d)
    else
      var p, k := phone.value, code.value;
      match FindIndex(d.otps, (o: Otp) => Usable(o, p, k, now))
      case None =>
        if FindIndex(d.otps, (o: Otp) => ExpiredMatch(o, p, k, now)).Some? then
          Step(Err(401, ExpiredMessage), d)
        else if FindIndex(d.otps, (o: Otp) => UsedMatch(o, p, k)).Some? then
          Step(Err(401, UsedMessage), d)
        else
          Step(Err(401, InvalidMessage), d)
      case Some(i) =>
        var otps := d.otps[i := d.otps[i].(used := true)];
        var (user, users) := FindOrCreate(d.users, p, newUserId, now);
        var rows := IssuedRows(c, user.id, now);
        Step(Ok(200, Login(rows[0].token, rows[1].token,
                           Me(user.id, user.phone, user.email, user.firstName, user.lastName))),
             d.(otps := otps, users := users, tokens := d.tokens + rows))
  }

  /**
   * Without a usable code the handler fails with 401 and changes nothing, and
   * it names the reason in a fixed order: an unused but expired code first,
   * then a used one, then none at all.
   */
  lemma VerifyFailures(c: Codec, d: Db, phone: string, code: string, now: int, newUserId: string)
    requires phone != "" && code != ""
    requires forall i | 0 <= i < |d.otps| :: !Usable(d.otps[i], phone, code, now)
    ensures var s := VerifyStep(c, d, Some(phone), Some(code), now, newUserId);
      && s.after == d
      && s.resp == Err(401,
           if exists i | 0 <= i < |d.otps| :: ExpiredMatch(d.otps[i], phone, code, now) then ExpiredMessage
           else if exists i | 0 <= i < |d.otps| :: UsedMatch(d.otps[i], phone, code) then UsedMessage
           else InvalidMessage)
  {
    var p, k := phone, code;
    var e := FindIndex(d.otps, (o: Otp) => ExpiredMatch(o, p, k, now));
    if e.Some? {
      assert ExpiredMatch(d.otps[e.value], phone, code, now);
    } else {
      var u := FindIndex(d.otps, (o: Otp) => UsedMatch(o, p, k));
      if u.Some? {
        assert UsedMatch(d.otps[u.value], phone, code);
      }
    }
  }

  /**
   * A login succeeds exactly when phone and code are given and some stored
   * code is usable; the first usable row is marked used and no other code
   * changes, the user with the phone is found or appended, and exactly two
   * unrevoked rows, access then refresh, are appended for that user. The
   * response names that user and carries the two new tokens.
   */
  lemma VerifySuccess(c: Codec, d: Db, phone: Option<string>, code: Option<string>, now: int, newUserId: string)
    ensures var s := VerifyStep(c, d, phone, code, now, newUserId);
      s.resp.Ok? <==>
        phone.Some? && phone.value != "" && code.Some? && code.value != "" &&
        exists i | 0 <= i < |d.otps| :: Usable(d.otps[i], phone.value, code.value, now)
    ensures var s := VerifyStep(c, d, phone, code, now, newUserId);
      s.resp.Ok? ==>
        exists i | 0 <= i < |d.otps| ::
          && Usable(d.otps[i], phone.value, code.value, now)
          && (forall j | 0 <= j < i :: !Usable(d.otps[j], phone.value, code.value, now))
          && s.after.otps == d.otps[i := d.otps[i].(used := true)]
          && var user := FindOrCreate(d.users, phone.value, newUserId, now).0;
          && s.after == d.(otps := s.after.otps,
                           users := FindOrCreate(d.users, phone.value, newUserId, now).1,
                           tokens := d.tokens + IssuedRows(c, user.id, now))
          && s.resp.body.Login?
          && s.resp.body.me.id == user.id && s.resp.body.me.phone == phone.value
          && s.resp.body.accessToken == MakeJwt(c, user.id, Access, now)
          && s.resp.body.refreshToken == MakeJwt(c, user.id, Refresh, now)
  {
    var s := VerifyStep(c, d, phone, code, now, newUserId);
    if phone.Some? && phone.value != "" && code.Some? && code.value != "" {
      var p, k := phone.value, code.value;
      var found := FindIndex(d.otps, (o: Otp) => Usable(o, p, k, now));
      if found.Some? {
        var i := found.value;
        assert Usable(d.otps[i], p, k, now);
      }
    }
  }

  /**
   * Single use: after a successful login the consumed code is no longer
   * usable, and when it was the only stored code for this phone and code, any
   * later attempt with them fails with "Code already used".
   */
  lemma {:induction false} CodeIsSingleUse(
    c: Codec, d: Db, phone: string, code: string, now: int, newUserId: string,
    later: int, otherId: string, i: nat)
    requires phone != "" && code != ""
    requires i < |d.otps| && Usable(d.otps[i], phone, code, now)
    requires forall j | 0 <= j < |d.otps| && j != i :: !Matches(d.otps[j], phone, code)
    ensures var s := VerifyStep(c, d, Some(phone), Some(code), now, newUserId);
      && s.resp.Ok?
      && !Usable(s.after.otps[i], phone, code, later)
      && VerifyStep(c, s.after, Some(phone), Some(code), later, otherId) == Step(Err(401, UsedMessage), s.after)
  {
    var s := VerifyStep(c, d, Some(phone), Some(code), now, newUserId);
    VerifySuccess(c, d, Some(phone), Some(code), now, newUserId);
    assert s.resp.Ok?;
    var i' :| 0 <= i' < |d.otps| && Usable(d.otps[i'], phone, code, now) &&
              s.after.otps == d.otps[i' := d.otps[i'].(used := true)];
    assert i' == i;
    var otps := s.after.otps;
    assert UsedMatch(otps[i], phone, code);
    forall j | 0 <= j < |otps|
      ensures !Usable(otps[j], phone, code, later) && !ExpiredMatch(otps[j], phone, code, later)
    {
      if j != i {
        assert otps[j] == d.otps[j];
      }
    }
    VerifyFailures(c, s.after, phone, code, later, otherId);
  }

  /**
   * Phone numbers stay unique, a new user's fresh id keeps ids unique, and a
   * new user has no email, so non-empty emails stay unique.
   */
  lemma {:induction false} VerifyKeepsUsersUnique(
    c: Codec, d: Db, phone: Option<string>, code: Option<string>, now: int, newUserId: string)
    requires PhonesUnique(d.users) && EmailsUnique(d.users) && IdsUnique(d.users)
    requires forall j | 0 <= j < |d.users| :: d.users[j].id != newUserId
    ensures var after := VerifyStep(c, d, phone, code, now, newUserId).after;
      PhonesUnique(after.users) && EmailsUnique(after.users) && IdsUnique(after.users)
  {
    var s := VerifyStep(c, d, phone, code, now, newUserId);
    if s.resp.Ok? {
      VerifySuccess(c, d, phone, code, now, newUserId);
      var r := FindOrCreate(d.users, phone.value, newUserId, now);
      if forall i | 0 <= i < |d.users| :: d.users[i].phone != phone.value {
        assert s.after.users == d.users + [NewUser(newUserId, phone.value, now)];
      }
    }
  }

  /** Existing token rows are kept as they are; revocations stay in force. */
  lemma VerifyKeepsRevocation(c: Codec, d: Db, phone: Option<string>, code: Option<string>, now: int, newUserId: string)
    ensures RevocationKept(d.tokens, VerifyStep(c, d, phone, code, now, newUserId).after.tokens)
  {
  }

  /** The handler on the mutable store: the in-place `used = true`, then the
      pushes onto users and tokens. */
  method VerifyOtp(db: Database, c: Codec, phone: Option<string>, code: Option<string>, now: int, newUserId: string)
    returns (r: Response)
    modifies db
    ensures Step(r, db.Snapshot()) == VerifyStep(c, old(db.Snapshot()), phone, code, now, newUserId)
  {
    if phone.None? || phone.value == "" || code.None? || code.value == "" {
      return Err(400, "Phone and code are required");
    }
    var p, k := phone.value, code.value;
    var otpIdx := FindIndex(db.otps, (o: Otp) => Usable(o, p, k, now));
    if otpIdx.None? {
      if FindIndex(db.otps, (o: Otp) => ExpiredMatch(o, p, k, now)).Some? {
        return Err(401, ExpiredMessage);
      }
      if FindIndex(db.otps, (o: Otp) => UsedMatch(o, p, k)).Some? {
        return Err(401, UsedMessage);
      }
      return Err(401, InvalidMessage);
    }
    var i := otpIdx.value;
    db.otps := db.otps[i := db.otps[i].(used := true)];
    var user: User;
    var existing := FindIndex(db.users, (u: User) => u.phone == p);
    if existing.Some? {
      user := db.users[existing.value];
    } else {
      user := NewUser(newUserId, p, now);
      db.users := db.users + [user];
    }
    var accessToken := MakeJwt(c, user.id, Access, now);
    var refreshToken := MakeJwt(c, user.id, Refresh, now);
    db.tokens := db.tokens + [
      TokenRow(accessToken, user.id, Access, now, now + 900000, false),
      TokenRow(refreshToken, user.id, Refresh, now, now + 2592000000, false)];
    return Ok(200, Login(accessToken, refreshToken,
                         Me(user.id, user.phone, user.email, user.firstName, user.lastName)));
  }
}
