/**
 * `POST /api/v1/auth/otp/request` (src/app/api/v1/auth/otp/request/route.ts):
 * records a one-time code for a phone number, at most one per 30 seconds
 * while the previous code for that phone is unused. The code itself comes
 * from `generateOtp`, a random source, and is a parameter here; the console
 * log of the code is left out.
 */
module OtpRequest {
  import opened Wrappers
  import opened Strings
  import opened Seqs
  import opened Store

  /** One request per 30 000 ms per phone while its last code is unused. */
  const RateWindowMs: int := 30000

  /** An existing code that makes a new request for `phone` wait. */
  predicate Blocks(o: Otp, phone: string, now: int)
  {
    o.phone == phone && !o.used && now - o.createdAt < RateWindowMs
  }

  /** `Math.ceil((30000 - age) / 1000)`, the whole seconds left to wait. */
  function WaitSeconds(age: int): int
  {
    -((age - RateWindowMs) / 1000)
  }

  /** For a code between 0 and 30 000 ms old the reported wait is 1 to 30 s. */
  lemma WaitSecondsBounds(age: int)
    requires 0 <= age < RateWindowMs
    ensures 1 <= WaitSeconds(age) <= 30
  {
  }

  function RateLimitMessage(age: int): string
  {
    "Rate limit exceeded. Please wait " + IntToString(WaitSeconds(age)) + " seconds."
  }

  /** The request handler as a function of the store, the body's `phone`,
      the time and the generated code. */
  function RequestStep(d: Db, phone: Option<string>, now: int, code: string): Step
  {
    if phone.None? || phone.value == "" then
      Step(Err(400, "Phone number is required"), d)
    else
      match FindIndex(d.otps, (o: Otp) => Blocks(o, phone.value, now))
      case Some(i) =>
        Step(Err(400, RateLimitMessage(now - d.otps[i].createdAt)), d)
      case None =>
        Step(Ok(200, OkFlag), d.(otps := d.otps + [Otp(phone.value, code, now, false)]))
  }

  /**
   * A request succeeds exactly when it names a phone and no unused code for
   * that phone is younger than 30 s (used codes and older codes never block);
   * it then appends exactly one unused code stamped `now`, after the existing
   * ones, and changes nothing else. Any refusal leaves the store as it was.
   */
  lemma RequestOutcome(d: Db, phone: Option<string>, now: int, code: string)
    ensures var s := RequestStep(d, phone, now, code);
      && (s.resp.Ok? <==>
            phone.Some? && phone.value != "" &&
            forall i | 0 <= i < |d.otps| :: d.otps[i].used || d.otps[i].phone != phone.value ||
                                             now - d.otps[i].createdAt >= RateWindowMs)
      && (s.resp.Ok? ==> s.after == d.(otps := d.otps + [Otp(phone.value, code, now, false)]))
      && (s.resp.Err? ==> s.resp.status == 400 && s.after == d)
  {
  }

  /**
   * A refused request because of a recent code reports a wait of 1 to 30
   * seconds, provided no stored code is dated after `now`.
   */
  lemma {:induction false} RateLimitedWait(d: Db, phone: string, now: int, code: string)
    requires phone != ""
    requires forall i | 0 <= i < |d.otps| :: d.otps[i].createdAt <= now
    requires exists i | 0 <= i < |d.otps| :: Blocks(d.otps[i], phone, now)
    ensures exists w | 1 <= w <= 30 ::
      RequestStep(d, Some(phone), now, code).resp ==
        Err(400, "Rate limit exceeded. Please wait " + IntToString(w) + " seconds.")
  {
    var i := FindIndex(d.otps, (o: Otp) => Blocks(o, phone, now)).value;
    var age := now - d.otps[i].createdAt;
    WaitSecondsBounds(age);
    var w := WaitSeconds(age);
    assert RequestStep(d, Some(phone), now, code).resp ==
        Err(400, "Rate limit exceeded. Please wait " + IntToString(w) + " seconds.");
  }

  /** The handler on the mutable store: a guard, then an in-place append. */
  method RequestOtp(db: Database, phone: Option<string>, now: int, code: string) returns (r: Response)
    modifies db
    ensures Step(r, db.Snapshot()) == RequestStep(old(db.Snapshot()), phone, now, code)
  {
    if phone.None? || phone.value == "" {
      return Err(400, "Phone number is required");
    }
    var recent := FindIndex(db.otps, (o: Otp) => Blocks(o, phone.value, now));
    if recent.Some? {
      return Err(400, RateLimitMessage(now - db.otps[recent.value].createdAt));
    }
    db.otps := db.otps + [Otp(phone.value, code, now, false)];
    return Ok(200, OkFlag);
  }
}
