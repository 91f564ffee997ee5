/**
 * `GET /api/v1/me/clubs/search` (src/app/api/v1/me/clubs/search/route.ts):
 * the clubs matching a text query that the caller belongs to or may apply
 * to. The handler only reads the store, so it is modelled as a function to
 * a response.
 */
module ClubSearch {
  import opened Wrappers
  import opened Strings
  import opened Seqs
  import opened Store
  import opened Tokens

  /** The `q` parameter in lower case, or "" when absent. */
  function Query(q: Option<string>): string
  {
    if q.Some? then ToLower(q.value) else ""
  }

  /** The text filter: an empty query passes everything; otherwise the
      lower-cased name or description contains the query. */
  predicate TextMatch(cl: Club, query: string)
  {
    query == "" || Contains(ToLower(cl.name), query) ||
    (cl.description.Some? && Contains(ToLower(cl.description.value), query))
  }

  /** The caller has a membership in the club whose status is not REMOVED. */
  predicate HasLiveMembership(ms: seq<Membership>, userId: string, clubId: string)
  {
    FindIndex(ms, (m: Membership) => m.userId == userId && m.clubId == clubId && m.status != Removed).Some?
  }

  /** Open to applications: APPLY_TO_JOIN and not explicitly closed. */
  predicate OpenToApply(cl: Club)
  {
    cl.joinMode == Some("APPLY_TO_JOIN") && cl.isAcceptingNewMembers != Some(false)
  }

  predicate Listed(d: Db, userId: string, query: string, cl: Club)
  {
    TextMatch(cl, query) && (HasLiveMembership(d.memberships, userId, cl.id) || OpenToApply(cl))
  }

  function SearchStep(c: Codec, d: Db, authHeader: Option<string>, now: int, q: Option<string>): Response
  {
    match GetUserFromToken(c, authHeader, now, d)
    case None => Err(401, "Unauthorized")
    case Some(user) =>
      var query := Query(q);
      Ok(200, ClubList(Filter(d.clubs, (cl: Club) => Listed(d, user.id, query, cl))))
  }

  /**
   * Without a caller the search answers 401. Otherwise it returns, in store
   * order and each as often as stored, exactly the stored clubs that pass the text filter and that the
   * caller either belongs to (whatever their join mode) or may apply to:
   * APPLY_TO_JOIN with `isAcceptingNewMembers` not false, absent counting as
   * accepting.
   */
  lemma SearchExactly(c: Codec, d: Db, authHeader: Option<string>, now: int, q: Option<string>)
    ensures GetUserFromToken(c, authHeader, now, d).None? ==> SearchStep(c, d, authHeader, now, q) == Err(401, "Unauthorized")
    ensures GetUserFromToken(c, authHeader, now, d).Some? ==>
      var user := GetUserFromToken(c, authHeader, now, d).value;
      var r := SearchStep(c, d, authHeader, now, q);
      && r.Ok? && r.body.ClubList?
      && IsSubsequence(r.body.clubs, d.clubs)
      && (forall cl :: cl in r.body.clubs <==>
           && cl in d.clubs
           && TextMatch(cl, Query(q))
           && ((exists k | 0 <= k < |d.memberships| ::
                  d.memberships[k].userId == user.id && d.memberships[k].clubId == cl.id &&
                  d.memberships[k].status != Removed)
               || (cl.joinMode == Some("APPLY_TO_JOIN") && cl.isAcceptingNewMembers != Some(false))))
      && (forall cl :: multiset(r.body.clubs)[cl] == if cl in r.body.clubs then multiset(d.clubs)[cl] else 0)
  {
    if GetUserFromToken(c, authHeader, now, d).Some? {
      var user := GetUserFromToken(c, authHeader, now, d).value;
      forall cl: Club
        ensures HasLiveMembership(d.memberships, user.id, cl.id) <==>
          exists k | 0 <= k < |d.memberships| ::
            d.memberships[k].userId == user.id && d.memberships[k].clubId == cl.id &&
            d.memberships[k].status != Removed
      {
        var f := FindIndex(d.memberships, (m: Membership) => m.userId == user.id && m.clubId == cl.id && m.status != Removed);
        if f.Some? {
          assert d.memberships[f.value].userId == user.id && d.memberships[f.value].clubId == cl.id;
        }
      }
    }
  }

  /**
   * A club that is not open to applications (INVITE_ONLY, or APPLY_TO_JOIN
   * with `isAcceptingNewMembers` false) and in which the caller has no live
   * membership is never returned.
   */
  lemma {:induction false} ClosedClubsHidden(c: Codec, d: Db, authHeader: Option<string>, now: int, q: Option<string>, cl: Club)
    requires GetUserFromToken(c, authHeader, now, d).Some?
    requires !(cl.joinMode == Some("APPLY_TO_JOIN") && cl.isAcceptingNewMembers != Some(false))
    requires forall k | 0 <= k < |d.memberships| ::
      !(d.memberships[k].userId == GetUserFromToken(c, authHeader, now, d).value.id &&
        d.memberships[k].clubId == cl.id && d.memberships[k].status != Removed)
    ensures cl !in SearchStep(c, d, authHeader, now, q).body.clubs
  {
    SearchExactly(c, d, authHeader, now, q);
  }

  /** The search ignores ASCII case: a query that starts the name, up to
      the case of its letters, finds the club. */
  lemma {:induction false} NameQueryIgnoresCase(cl: Club, q: string)
    requires q != "" && |q| <= |cl.name| && ToLower(cl.name[..|q|]) == ToLower(q)
    ensures TextMatch(cl, Query(Some(q)))
  {
    var lowName := ToLower(cl.name);
    var lowQ := ToLower(q);
    assert lowName[0..|lowQ|] == lowQ by {
      forall k | 0 <= k < |q|
        ensures lowName[k] == lowQ[k]
      {
        assert lowQ[k] == ToLower(cl.name[..|q|])[k] == LowerChar(cl.name[k]);
      }
    }
    ContainsAt(lowName, lowQ, 0);
  }

  /** The example in the repository's tests: "dragon" finds "Dragon Smash". */
  lemma DragonExample(cl: Club)
    requires cl.name == "Dragon Smash"
    ensures TextMatch(cl, Query(Some("dragon")))
  {
    assert ToLower("dragon") == "dragon";
    assert ToLower(cl.name)[0..6] == "dragon";
    ContainsAt(ToLower(cl.name), "dragon", 0);
  }
}
