/**
 * `GET /api/v1/me/applications` (src/app/api/v1/me/applications/route.ts):
 * the caller's club applications. The handler only reads the store.
 */
module Applications {
  import opened Wrappers
  import opened Seqs
  import opened Store
  import opened Tokens

  function MyApplicationsStep(c: Codec, d: Db, authHeader: Option<string>, now: int): Response
  {
    match GetUserFromToken(c, authHeader, now, d)
    case None => Err(401, "Unauthorized")
    case Some(user) =>
      Ok(200, ApplicationList(Filter(d.applications, (a: Application) => a.userId == user.id)))
  }

  /**
   * Without a caller the handler answers 401. Otherwise it returns, in store
   * order and each as often as stored, exactly the applications whose
   * `userId` is the caller's id.
   */
  lemma MyApplicationsExactly(c: Codec, d: Db, authHeader: Option<string>, now: int)
    ensures GetUserFromToken(c, authHeader, now, d).None? ==>
      MyApplicationsStep(c, d, authHeader, now) == Err(401, "Unauthorized")
    ensures GetUserFromToken(c, authHeader, now, d).Some? ==>
      var user := GetUserFromToken(c, authHeader, now, d).value;
      var r := MyApplicationsStep(c, d, authHeader, now);
      && r.Ok? && r.status == 200 && r.body.ApplicationList?
      && IsSubsequence(r.body.applications, d.applications)
      && (forall k | 0 <= k < |r.body.applications| :: r.body.applications[k].userId == user.id)
      && (forall a | a in d.applications && a.userId == user.id :: a in r.body.applications)
      && (forall a :: multiset(r.body.applications)[a] ==
            if a.userId == user.id then multiset(d.applications)[a] else 0)
  {
    if GetUserFromToken(c, authHeader, now, d).Some? {
      var user := GetUserFromToken(c, authHeader, now, d).value;
      var apps := MyApplicationsStep(c, d, authHeader, now).body.applications;
      forall k | 0 <= k < |apps|
        ensures apps[k].userId == user.id
      {
        assert apps[k] in apps;
      }
    }
  }
}
