/**
 * `GET` and `POST /api/v1/me/notifications`
 * (src/app/api/v1/me/notifications/route.ts): the caller's notifications,
 * newest first, and marking them all read. Creation times, ISO strings in
 * the source, are milliseconds here, so comparing them is comparing
 * integers.
 */
module Notifications {
  import opened Wrappers
  import opened Seqs
  import opened Store
  import opened Tokens

  const Unauthorized := "Unauthorized"

  /** Newest first: creation times never increase along the list. */
  predicate NewestFirst(s: seq<Notification>)
  {
    forall i, j | 0 <= i < j < |s| :: s[i].createdAt >= s[j].createdAt
  }

  /** x placed into a newest-first list before the first entry no newer than x. */
  function Insert(x: Notification, s: seq<Notification>): (r: seq<Notification>)
    requires NewestFirst(s)
    ensures NewestFirst(r)
    ensures multiset(r) == multiset(s) + multiset{x}
    ensures r[0] == x || (|s| > 0 && r[0] == s[0])
  {
    if |s| == 0 || s[0].createdAt <= x.createdAt then [x] + s
    else
      var rest := Insert(x, s[1..]);
      assert s == [s[0]] + s[1..];
      assert s[0].createdAt >= rest[0].createdAt;
      [s[0]] + rest
  }

  /**
   * The comparator sort `(a, b) => b.createdAt - a.createdAt`: the same
   * notifications, each as often, newest first.
   */
  function SortNewestFirst(s: seq<Notification>): (r: seq<Notification>)
    ensures NewestFirst(r)
    ensures multiset(r) == multiset(s)
  {
    if |s| == 0 then []
    else
      assert s == [s[0]] + s[1..];
      Insert(s[0], SortNewestFirst(s[1..]))
  }

  /** An absent collection reads as empty (`db.notifications || []`). */
  function AllNotifications(d: Db): seq<Notification>
  {
    if d.notifications.Some? then d.notifications.value else []
  }

  function ListStep(c: Codec, d: Db, authHeader: Option<string>, now: int): Response
  {
    match GetUserFromToken(c, authHeader, now, d)
    case None => Err(401, Unauthorized)
    case Some(user) =>
      Ok(200, NotificationList(SortNewestFirst(Filter(AllNotifications(d), (n: Notification) => n.userId == user.id))))
  }

  /**
   * GET answers 401 without a caller; otherwise it lists exactly the
   * caller's notifications, each as often as stored (none when the
   * collection is absent), newest first.
   */
  lemma ListExactly(c: Codec, d: Db, authHeader: Option<string>, now: int)
    ensures GetUserFromToken(c, authHeader, now, d).None? ==> ListStep(c, d, authHeader, now) == Err(401, Unauthorized)
    ensures GetUserFromToken(c, authHeader, now, d).Some? ==>
      var user := GetUserFromToken(c, authHeader, now, d).value;
      var r := ListStep(c, d, authHeader, now);
      && r.Ok? && r.body.NotificationList?
      && NewestFirst(r.body.notifications)
      && (forall n :: multiset(r.body.notifications)[n] ==
            if n.userId == user.id then multiset(AllNotifications(d))[n] else 0)
      && (d.notifications.None? ==> r.body.notifications == [])
  {
  }

  /** The collection after every notification of `userId` is marked read. */
  function MarkReadFor(ns: seq<Notification>, userId: string): (r: seq<Notification>)
    ensures |r| == |ns|
    ensures forall k | 0 <= k < |ns| && ns[k].userId == userId :: r[k] == ns[k].(read := true)
    ensures forall k | 0 <= k < |ns| && ns[k].userId != userId :: r[k] == ns[k]
  {
    if |ns| == 0 then []
    else
      var head := if ns[0].userId == userId then ns[0].(read := true) else ns[0];
      [head] + MarkReadFor(ns[1..], userId)
  }

  /** `POST` (mark all read) as a function of the store, the header and the
      time. An absent collection stays absent. */
  function MarkAllReadStep(c: Codec, d: Db, authHeader: Option<string>, now: int): Step
  {
    match GetUserFromToken(c, authHeader, now, d)
    case None => Step(Err(401, Unauthorized), d)
    case Some(user) =>
      var after := if d.notifications.Some? then Some(MarkReadFor(d.notifications.value, user.id)) else None;
      Step(Ok(200, OkFlag), d.(notifications := after))
  }

  /**
   * POST answers 401 and changes nothing without a caller. Otherwise every
   * notification of the caller is read afterwards, every other one is
   * unchanged, the collection keeps its length, and an absent collection
   * stays absent; nothing else in the store changes.
   */
  lemma MarkAllReadOutcome(c: Codec, d: Db, authHeader: Option<string>, now: int)
    ensures var s := MarkAllReadStep(c, d, authHeader, now);
      && (GetUserFromToken(c, authHeader, now, d).None? ==> s == Step(Err(401, Unauthorized), d))
      && (GetUserFromToken(c, authHeader, now, d).Some? ==>
            var user := GetUserFromToken(c, authHeader, now, d).value;
            var before := AllNotifications(d);
            var after := AllNotifications(s.after);
            && s.resp == Ok(200, OkFlag)
            && s.after == d.(notifications := s.after.notifications)
            && s.after.notifications.Some? == d.notifications.Some?
            && |after| == |before|
            && (forall k | 0 <= k < |after| :: after[k].userId == user.id ==> after[k].read)
            && (forall k | 0 <= k < |after| :: before[k].userId != user.id ==> after[k] == before[k]))
  {
  }

  /** Marking twice is marking once. */
  lemma {:induction false} MarkReadForIdempotent(ns: seq<Notification>, userId: string)
    ensures MarkReadFor(MarkReadFor(ns, userId), userId) == MarkReadFor(ns, userId)
  {
    var once := MarkReadFor(ns, userId);
    var twice := MarkReadFor(once, userId);
    forall k | 0 <= k < |ns|
      ensures twice[k] == once[k]
    {
      if ns[k].userId == userId {
        assert once[k].userId == userId;
      }
    }
  }

  /** POST twice with the same header leaves the store as POST once. */
  lemma {:induction false} MarkAllReadIdempotent(c: Codec, d: Db, authHeader: Option<string>, now: int)
    ensures var once := MarkAllReadStep(c, d, authHeader, now).after;
      MarkAllReadStep(c, once, authHeader, now).after == once
  {
    var caller := GetUserFromToken(c, authHeader, now, d);
    if caller.Some? {
      var once := MarkAllReadStep(c, d, authHeader, now).after;
      assert once.users == d.users && once.tokens == d.tokens;
      if d.notifications.Some? {
        MarkReadForIdempotent(d.notifications.value, caller.value.id);
      }
    }
  }

  /** After POST, GET with the same header lists only read notifications. */
  lemma {:induction false} ListedAfterMarkAreRead(c: Codec, d: Db, authHeader: Option<string>, now: int)
    requires GetUserFromToken(c, authHeader, now, d).Some?
    ensures var after := MarkAllReadStep(c, d, authHeader, now).after;
      var r := ListStep(c, after, authHeader, now);
      r.Ok? && r.body.NotificationList? && forall n | n in r.body.notifications :: n.read
  {
    var user := GetUserFromToken(c, authHeader, now, d).value;
    var after := MarkAllReadStep(c, d, authHeader, now).after;
    assert after == d.(notifications := after.notifications);
    assert GetUserFromToken(c, authHeader, now, after) == Some(user);
    var all := AllNotifications(after);
    var mine := Filter(all, (n: Notification) => n.userId == user.id);
    var sorted := SortNewestFirst(mine);
    assert ListStep(c, after, authHeader, now) == Ok(200, NotificationList(sorted));
    forall n | n in sorted
      ensures n.read
    {
      assert multiset(sorted)[n] > 0;
      assert n in mine;
      var k :| 0 <= k < |all| && all[k] == n;
    }
  }

  /** The POST handler on the mutable store: the `forEach` that marks in place. */
  method MarkAllRead(db: Database, c: Codec, authHeader: Option<string>, now: int) returns (r: Response)
    modifies db
    ensures Step(r, db.Snapshot()) == MarkAllReadStep(c, old(db.Snapshot()), authHeader, now)
  {
    var caller := GetUserFromToken(c, authHeader, now, db.Snapshot());
    if caller.None? {
      return Err(401, Unauthorized);
    }
    if db.notifications.Some? {
      var marked := MarkRows(db.notifications.value, caller.value.id);
      db.notifications := Some(marked);
    }
    return Ok(200, OkFlag);
  }

  /** The loop of the `forEach`: each notification of `userId`, in turn,
      becomes read. */
  method MarkRows(ns: seq<Notification>, userId: string) returns (r: seq<Notification>)
    ensures r == MarkReadFor(ns, userId)
  {
    ghost var target := MarkReadFor(ns, userId);
    r := ns;
    var k := 0;
    while k < |r|
      invariant 0 <= k <= |r| == |ns|
      invariant forall j | 0 <= j < k :: r[j] == target[j]
      invariant forall j | k <= j < |r| :: r[j] == ns[j]
    {
      if r[k].userId == userId {
        r := r[k := r[k].(read := true)];
      }
      k := k + 1;
    }
  }
}
