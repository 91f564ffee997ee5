/**
 * `GET` and `POST /api/v1/clubs` (src/app/api/v1/clubs/route.ts): the clubs
 * the caller belongs to, and the creation of a club whose creator becomes
 * its administrator. The ids of the new club and membership come from
 * `uuid()` and are parameters here.
 */
module Clubs {
  import opened Wrappers
  import opened Strings
  import opened Seqs
  import opened Store
  import opened Tokens

  const Unauthorized := "Unauthorized"
  const NameRequired := "Club name is required"

  /** A membership that ties `userId` to its club: any status but REMOVED. */
  predicate LiveMembershipOf(m: Membership, userId: string)
  {
    m.userId == userId && m.status != Removed
  }

  /** The ids of the clubs `userId` belongs to, in membership order. */
  function MyClubIds(ms: seq<Membership>, userId: string): (ids: seq<string>)
    ensures forall id :: id in ids <==> exists k | 0 <= k < |ms| :: LiveMembershipOf(ms[k], userId) && ms[k].clubId == id
  {
    var mine := Filter(ms, (m: Membership) => LiveMembershipOf(m, userId));
    var ids := Map(mine, (m: Membership) => m.clubId);
    forall id | id in ids
      ensures exists k | 0 <= k < |ms| :: LiveMembershipOf(ms[k], userId) && ms[k].clubId == id
    {
      var j :| 0 <= j < |ids| && ids[j] == id;
      assert mine[j] in ms;
    }
    forall id | exists k | 0 <= k < |ms| :: LiveMembershipOf(ms[k], userId) && ms[k].clubId == id
      ensures id in ids
    {
      var k :| 0 <= k < |ms| && LiveMembershipOf(ms[k], userId) && ms[k].clubId == id;
      assert ms[k] in mine;
      var j :| 0 <= j < |mine| && mine[j] == ms[k];
      assert ids[j] == id;
    }
    ids
  }

  /** `GET /clubs` as a function of the store, the header and the time. */
  function MyClubsStep(c: Codec, d: Db, authHeader: Option<string>, now: int): Response
  {
    match GetUserFromToken(c, authHeader, now, d)
    case None => Err(401, Unauthorized)
    case Some(user) =>
      var ids := MyClubIds(d.memberships, user.id);
      Ok(200, ClubList(Filter(d.clubs, (cl: Club) => cl.id in ids)))
  }

  /**
   * GET answers 401 without a caller; otherwise it lists, in store order and
   * each as often as stored, exactly the clubs whose id a non-REMOVED
   * membership of the caller names.
   */
  lemma MyClubsExactly(c: Codec, d: Db, authHeader: Option<string>, now: int)
    ensures GetUserFromToken(c, authHeader, now, d).None? ==> MyClubsStep(c, d, authHeader, now) == Err(401, Unauthorized)
    ensures GetUserFromToken(c, authHeader, now, d).Some? ==>
      var user := GetUserFromToken(c, authHeader, now, d).value;
      var r := MyClubsStep(c, d, authHeader, now);
      && r.Ok? && r.status == 200 && r.body.ClubList?
      && IsSubsequence(r.body.clubs, d.clubs)
      && (forall cl :: cl in r.body.clubs <==>
           cl in d.clubs && exists k | 0 <= k < |d.memberships| ::
             LiveMembershipOf(d.memberships[k], user.id) && d.memberships[k].clubId == cl.id)
      && (forall cl :: multiset(r.body.clubs)[cl] == if cl in r.body.clubs then multiset(d.clubs)[cl] else 0)
  {
  }

  /** The fields of the POST body the handler reads; None is absent or null. */
  datatype NewClubBody = NewClubBody(
    name: Option<string>,
    description: Option<string>,
    clubType: Option<string>,
    levelsAccepted: Option<seq<string>>,
    location: Option<string>,
    rules: Option<string>,
    joinMode: Option<string>,
    isAcceptingNewMembers: Option<bool>,
    activeMemberLimit: Option<int>)

  /** The club record POST stores, with the handler's defaults filled in. */
  function NewClub(b: NewClubBody, id: string, now: int): Club
    requires b.name.Some?
  {
    Club(id, b.name.value, OrUndefined(b.description),
         Some(if Truthy(b.clubType) then b.clubType.value else "CASUAL"),
         Some(if b.levelsAccepted.Some? then b.levelsAccepted.value else []),
         b.location, None, OrUndefined(b.rules),
         Some(if Truthy(b.joinMode) then b.joinMode.value else "APPLY_TO_JOIN"),
         Some(if b.isAcceptingNewMembers.Some? then b.isAcceptingNewMembers.value else true),
         if b.activeMemberLimit.Some? && b.activeMemberLimit.value != 0 then b.activeMemberLimit else None,
         now, now)
  }

  /** The creator's membership: ADMIN, ACTIVE, both contact details hidden. */
  function CreatorMembership(id: string, userId: string, clubId: string, now: int): Membership
  {
    Membership(id, userId, clubId, Admin, Active, false, false, None, now)
  }

  /** `POST /clubs` as a function of the store, the header, the time, the
      body and the two fresh ids. */
  function CreateClubStep(c: Codec, d: Db, authHeader: Option<string>, now: int, b: NewClubBody,
                          clubId: string, membershipId: string): Step
  {
    match GetUserFromToken(c, authHeader, now, d)
    case None => Step(Err(401, Unauthorized), d)
    case Some(user) =>
      if b.name.None? || Trim(b.name.value) == "" then Step(Err(400, NameRequired), d)
      else
        var club := NewClub(b, clubId, now);
        Step(Ok(201, ClubBody(club)),
             d.(clubs := d.clubs + [club],
                memberships := d.memberships + [CreatorMembership(membershipId, user.id, clubId, now)]))
  }

  /**
   * POST answers 401 without a caller and 400 when the name is absent or
   * only whitespace, changing nothing. Otherwise it appends exactly one club
   * and one membership for the caller in that club, answers 201 with the
   * club, and changes no other collection.
   */
  lemma CreateClubOutcome(c: Codec, d: Db, authHeader: Option<string>, now: int, b: NewClubBody,
                          clubId: string, membershipId: string)
    ensures var s := CreateClubStep(c, d, authHeader, now, b, clubId, membershipId);
      && (GetUserFromToken(c, authHeader, now, d).None? ==> s == Step(Err(401, Unauthorized), d))
      && (GetUserFromToken(c, authHeader, now, d).Some? ==>
            && ((b.name.None? || forall k | 0 <= k < |b.name.value| :: IsWhitespace(b.name.value[k])) <==>
                  s.resp.Err?)
            && (s.resp.Err? ==> s == Step(Err(400, NameRequired), d))
            && (s.resp.Ok? ==>
                  var user := GetUserFromToken(c, authHeader, now, d).value;
                  && s.resp == Ok(201, ClubBody(NewClub(b, clubId, now)))
                  && s.after == d.(clubs := d.clubs + [NewClub(b, clubId, now)],
                                   memberships := d.memberships + [CreatorMembership(membershipId, user.id, clubId, now)])))
  {
  }

  /**
   * The defaults: the stored club has the given id and name; its type is
   * CASUAL and its join mode APPLY_TO_JOIN unless a non-empty one is given;
   * its levels are the given list or empty; it accepts new members unless
   * the body says false; a member limit of 0 or none is stored as none; it
   * has no badge; and its creation and update times are both `now`.
   */
  lemma NewClubDefaults(b: NewClubBody, id: string, now: int)
    requires b.name.Some?
    ensures var cl := NewClub(b, id, now);
      && cl.id == id && cl.name == b.name.value
      && (!Truthy(b.clubType) ==> cl.clubType == Some("CASUAL"))
      && (Truthy(b.clubType) ==> cl.clubType == b.clubType)
      && (!Truthy(b.joinMode) ==> cl.joinMode == Some("APPLY_TO_JOIN"))
      && (b.levelsAccepted.None? ==> cl.levelsAccepted == Some([]))
      && (cl.isAcceptingNewMembers == Some(false) <==> b.isAcceptingNewMembers == Some(false))
      && cl.isAcceptingNewMembers.Some?
      && (cl.activeMemberLimit.None? <==> b.activeMemberLimit.None? || b.activeMemberLimit == Some(0))
      && cl.badge.None? && cl.createdAt == now && cl.updatedAt == now
  {
  }

  /** An ACTIVE ADMIN membership of the club `clubId`. */
  predicate ActiveAdminOf(m: Membership, clubId: string)
  {
    m.clubId == clubId && m.role == Admin && m.status == Active
  }

  /** How many ACTIVE ADMIN memberships the club `clubId` has. */
  function ActiveAdminCount(ms: seq<Membership>, clubId: string): nat
  {
    if |ms| == 0 then 0
    else ActiveAdminCount(ms[..|ms| - 1], clubId) + (if ActiveAdminOf(ms[|ms| - 1], clubId) then 1 else 0)
  }

  /** A club no membership names has no active admin. */
  lemma {:induction false} NoAdminsWithoutMemberships(ms: seq<Membership>, clubId: string)
    requires forall k | 0 <= k < |ms| :: ms[k].clubId != clubId
    ensures ActiveAdminCount(ms, clubId) == 0
  {
    if |ms| > 0 {
      NoAdminsWithoutMemberships(ms[..|ms| - 1], clubId);
    }
  }

  /**
   * A new club has exactly one ACTIVE ADMIN, the caller, when its id is fresh
   * (no earlier membership names it).
   */
  lemma {:induction false} NewClubHasOneAdmin(c: Codec, d: Db, authHeader: Option<string>, now: int, b: NewClubBody,
                                              clubId: string, membershipId: string)
    requires forall k | 0 <= k < |d.memberships| :: d.memberships[k].clubId != clubId
    requires CreateClubStep(c, d, authHeader, now, b, clubId, membershipId).resp.Ok?
    ensures var ms := CreateClubStep(c, d, authHeader, now, b, clubId, membershipId).after.memberships;
      && ActiveAdminCount(ms, clubId) == 1
      && forall k | 0 <= k < |ms| && ActiveAdminOf(ms[k], clubId) ::
           ms[k].userId == GetUserFromToken(c, authHeader, now, d).value.id
  {
    var ms := CreateClubStep(c, d, authHeader, now, b, clubId, membershipId).after.memberships;
    NoAdminsWithoutMemberships(d.memberships, clubId);
    assert ms[..|ms| - 1] == d.memberships;
  }

  /**
   * The creator finds the new club in their list right away: after a
   * successful POST, GET with the same header and time lists it.
   */
  lemma {:induction false} CreatedClubIsListed(c: Codec, d: Db, authHeader: Option<string>, now: int, b: NewClubBody,
                                               clubId: string, membershipId: string)
    requires CreateClubStep(c, d, authHeader, now, b, clubId, membershipId).resp.Ok?
    ensures var after := CreateClubStep(c, d, authHeader, now, b, clubId, membershipId).after;
      var r := MyClubsStep(c, after, authHeader, now);
      r.Ok? && r.body.ClubList? && NewClub(b, clubId, now) in r.body.clubs
  {
    var after := CreateClubStep(c, d, authHeader, now, b, clubId, membershipId).after;
    var user := GetUserFromToken(c, authHeader, now, d).value;
    assert after.users == d.users && after.tokens == d.tokens;
    assert GetUserFromToken(c, authHeader, now, after) == Some(user);
    var k := |after.memberships| - 1;
    assert LiveMembershipOf(after.memberships[k], user.id) && after.memberships[k].clubId == clubId;
    MyClubsExactly(c, after, authHeader, now);
    assert NewClub(b, clubId, now) in after.clubs by {
      assert after.clubs[|after.clubs| - 1] == NewClub(b, clubId, now);
    }
  }

  /** The POST handler on the mutable store: two pushes. */
  method CreateClub(db: Database, c: Codec, authHeader: Option<string>, now: int, b: NewClubBody,
                    clubId: string, membershipId: string) returns (r: Response)
    modifies db
    ensures Step(r, db.Snapshot()) == CreateClubStep(c, old(db.Snapshot()), authHeader, now, b, clubId, membershipId)
  {
    var caller := GetUserFromToken(c, authHeader, now, db.Snapshot());
    if caller.None? {
      return Err(401, Unauthorized);
    }
    if b.name.None? || Trim(b.name.value) == "" {
      return Err(400, NameRequired);
    }
    var club := NewClub(b, clubId, now);
    db.clubs := db.clubs + [club];
    db.memberships := db.memberships + [CreatorMembership(membershipId, caller.value.id, club.id, now)];
    return Ok(201, ClubBody(club));
  }
}
