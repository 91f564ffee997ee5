/**
 * `POST /api/v1/auth/register` (src/app/api/v1/auth/register/route.ts):
 * validates a sign-up body in a fixed order and appends one user. The new
 * user's id comes from `uuid()` and is a parameter here.
 */
module Register {
  import opened Wrappers
  import opened Strings
  import opened Seqs
  import opened Store

  /** The string fields of the JSON body; None is an absent field. */
  datatype RegisterBody = RegisterBody(
    phone: Option<string>,
    firstName: Option<string>,
    lastName: Option<string>,
    nickname: Option<string>,
    email: Option<string>,
    dateOfBirth: Option<string>,
    gender: Option<string>,
    referrer: Option<string>,
    language: Option<string>)

  /**
   * The pattern `^\+[1-9]\d{6,14}$`: a '+', a non-zero digit, then 6 to 14
   * more ASCII digits, so 7 to 15 digits in all (clause 6 of ITU-T
   * Recommendation E.164 caps a number at 15 digits).
   */
  predicate IsE164(s: string)
  {
    8 <= |s| <= 16 && s[0] == '+' && '1' <= s[1] <= '9' && AllDigits(s[2..])
  }

  /** The examples the repository's own tests give for the pattern. */
  lemma E164Examples()
    ensures IsE164("+66812345678") && IsE164("+1234567890")
    ensures !IsE164("66812345678") && !IsE164("+0123456789") && !IsE164("+1") && !IsE164("")
  {
    var a := "+66812345678";
    assert forall k | 2 <= k < |a| :: IsDigit(a[k]);
    var b := "+1234567890";
    assert forall k | 2 <= k < |b| :: IsDigit(b[k]);
  }

  const PhoneRequired := "Phone number is required"
  const InvalidPhone := "Invalid phone format. Must be E.164 (e.g., +1234567890)"
  const PhoneTaken := "Phone number already registered"
  const EmailTaken := "Email already in use"
  const BadGender := "Gender must be \"male\" or \"female\""

  predicate PhoneTakenIn(users: seq<User>, phone: string)
  {
    FindIndex(users, (u: User) => u.phone == phone).Some?
  }

  predicate EmailTakenIn(users: seq<User>, email: string)
  {
    FindIndex(users, (u: User) => u.email == Some(email)).Some?
  }

  /** The record appended on success: empty optional fields are dropped and
      the language defaults to "en". */
  function Registered(b: RegisterBody, id: string, now: int): User
    requires b.phone.Some?
  {
    User(id, b.phone.value, OrUndefined(b.email), OrUndefined(b.firstName),
         OrUndefined(b.lastName), OrUndefined(b.nickname),
         if Truthy(b.language) then b.language.value else "en",
         OrUndefined(b.dateOfBirth), OrUndefined(b.gender), OrUndefined(b.referrer), now)
  }

  /** The register handler as a function of the store, the body, the new
      user's id and the time. */
  function RegisterStep(d: Db, b: RegisterBody, newId: string, now: int): Step
  {
    if !Truthy(b.phone) then Step(Err(400, PhoneRequired), d)
    else if !IsE164(b.phone.value) then Step(Err(400, InvalidPhone), d)
    else if PhoneTakenIn(d.users, b.phone.value) then Step(Err(409, PhoneTaken), d)
    else if Truthy(b.email) && EmailTakenIn(d.users, b.email.value) then Step(Err(409, EmailTaken), d)
    else if Truthy(b.gender) && b.gender.value != "male" && b.gender.value != "female" then
      Step(Err(400, BadGender), d)
    else
      var user := Registered(b, newId, now);
      Step(Ok(201, ProfileBody(ProfileOf(user))), d.(users := d.users + [user]))
  }

  /**
   * The refusals, in the order the handler tries them, each with its status
   * and message, and each leaving the store as it was: no phone (400), a
   * phone that is not E.164 (400), a phone already registered (409), a
   * non-empty email some user has (409), a gender other than "male" or
   * "female" (400).
   */
  lemma RegisterRefusals(d: Db, b: RegisterBody, newId: string, now: int)
    ensures var s := RegisterStep(d, b, newId, now);
      && (s.resp.Err? ==> s.after == d)
      && (!Truthy(b.phone) ==> s.resp == Err(400, PhoneRequired))
      && (Truthy(b.phone) && !IsE164(b.phone.value) ==> s.resp == Err(400, InvalidPhone))
      && (Truthy(b.phone) && IsE164(b.phone.value) &&
          (exists i | 0 <= i < |d.users| :: d.users[i].phone == b.phone.value) ==>
            s.resp == Err(409, PhoneTaken))
      && (Truthy(b.phone) && IsE164(b.phone.value) &&
          (forall i | 0 <= i < |d.users| :: d.users[i].phone != b.phone.value) &&
          Truthy(b.email) &&
          (exists i | 0 <= i < |d.users| :: d.users[i].email == b.email) ==>
            s.resp == Err(409, EmailTaken))
  {
    var s := RegisterStep(d, b, newId, now);
    if Truthy(b.phone) && IsE164(b.phone.value) {
      var p := b.phone.value;
      if exists i | 0 <= i < |d.users| :: d.users[i].phone == p {
        var i :| 0 <= i < |d.users| && d.users[i].phone == p;
        assert FindIndex(d.users, (u: User) => u.phone == p).Some?;
      } else if Truthy(b.email) {
        if exists i | 0 <= i < |d.users| :: d.users[i].email == b.email {
          var i :| 0 <= i < |d.users| && d.users[i].email == b.email;
          assert d.users[i].email == Some(b.email.value);
        }
      }
    }
  }

  /**
   * Registration succeeds exactly when the phone is present and E.164, no
   * user has it, a non-empty email is held by no user, and a non-empty
   * gender is "male" or "female". It then appends exactly one user, with
   * status 201, and changes no other collection; the response is that user's
   * record without its creation time.
   */
  lemma RegisterSuccess(d: Db, b: RegisterBody, newId: string, now: int)
    ensures var s := RegisterStep(d, b, newId, now);
      && (s.resp.Ok? <==>
            && Truthy(b.phone) && IsE164(b.phone.value)
            && (forall i | 0 <= i < |d.users| :: d.users[i].phone != b.phone.value)
            && (Truthy(b.email) ==> forall i | 0 <= i < |d.users| :: d.users[i].email != b.email)
            && (Truthy(b.gender) ==> b.gender.value == "male" || b.gender.value == "female"))
      && (s.resp.Ok? ==>
            && s.resp.status == 201
            && s.after == d.(users := d.users + [Registered(b, newId, now)])
            && s.resp.body == ProfileBody(ProfileOf(Registered(b, newId, now))))
  {
    RegisterRefusals(d, b, newId, now);
    if Truthy(b.phone) && IsE164(b.phone.value) {
      var p := b.phone.value;
      var f := FindIndex(d.users, (u: User) => u.phone == p);
      if f.Some? {
        assert d.users[f.value].phone == p;
      } else if Truthy(b.email) {
        var e := b.email.value;
        var g := FindIndex(d.users, (u: User) => u.email == Some(e));
        if g.Some? {
          assert d.users[g.value].email == b.email;
        }
      }
    }
  }

  /**
   * The stored user: its phone is the given one, absent or empty optional
   * fields are stored as absent (so a stored email is never empty), and the
   * language is the given one unless that is absent or empty, then "en".
   */
  lemma RegisteredFields(b: RegisterBody, id: string, now: int)
    requires b.phone.Some?
    ensures var u := Registered(b, id, now);
      && u.id == id && u.phone == b.phone.value && u.createdAt == now
      && (u.email.Some? ==> u.email == b.email && u.email.value != "")
      && (u.language == if Truthy(b.language) then b.language.value else "en")
      && (u.firstName.None? <==> !Truthy(b.firstName))
  {
  }

  /**
   * Registration keeps phones unique and non-empty emails unique, and keeps
   * ids unique when the new id is fresh.
   */
  lemma {:induction false} RegisterKeepsUsersUnique(d: Db, b: RegisterBody, newId: string, now: int)
    requires PhonesUnique(d.users) && EmailsUnique(d.users) && IdsUnique(d.users)
    requires forall j | 0 <= j < |d.users| :: d.users[j].id != newId
    ensures var after := RegisterStep(d, b, newId, now).after;
      PhonesUnique(after.users) && EmailsUnique(after.users) && IdsUnique(after.users)
  {
    var s := RegisterStep(d, b, newId, now);
    if s.resp.Ok? {
      RegisterSuccess(d, b, newId, now);
      var u := Registered(b, newId, now);
      var users := d.users + [u];
      assert s.after.users == users;
      forall i, j | 0 <= i < j < |users|
        ensures users[i].phone != users[j].phone && users[i].id != users[j].id
        ensures users[i].email.Some? && users[i].email.value != "" ==> users[i].email != users[j].email
      {
        if j == |users| - 1 {
          assert users[j] == u && users[i] == d.users[i];
        }
      }
    }
  }

  /** The handler on the mutable store: guard returns, then one push. */
  method RegisterUser(db: Database, b: RegisterBody, newId: string, now: int) returns (r: Response)
    modifies db
    ensures Step(r, db.Snapshot()) == RegisterStep(old(db.Snapshot()), b, newId, now)
  {
    if b.phone.None? || b.phone.value == "" {
      return Err(400, PhoneRequired);
    }
    var phone := b.phone.value;
    if !IsE164(phone) {
      return Err(400, InvalidPhone);
    }
    if FindIndex(db.users, (u: User) => u.phone == phone).Some? {
      return Err(409, PhoneTaken);
    }
    if b.email.Some? && b.email.value != "" {
      var email := b.email.value;
      if FindIndex(db.users, (u: User) => u.email == Some(email)).Some? {
        return Err(409, EmailTaken);
      }
    }
    if b.gender.Some? && b.gender.value != "" && b.gender.value != "male" && b.gender.value != "female" {
      return Err(400, BadGender);
    }
    var user := User(newId, phone, OrUndefined(b.email), OrUndefined(b.firstName),
                     OrUndefined(b.lastName), OrUndefined(b.nickname),
                     if b.language.Some? && b.language.value != "" then b.language.value else "en",
                     OrUndefined(b.dateOfBirth), OrUndefined(b.gender), OrUndefined(b.referrer), now);
    db.users := db.users + [user];
    return Ok(201, ProfileBody(ProfileOf(user)));
  }
}
