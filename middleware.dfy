/**
 * The request middleware (src/middleware.ts): a fixed-window rate limiter
 * over API paths, keyed by client address and path. The limiter's map is
 * module-level state in the source; here it is the field of a
 * `RateLimiter` object. The Content-Security-Policy header the middleware
 * sets on every response is not part of this model.
 */
module Middleware {
  import opened Wrappers
  import opened Strings

  /** At most 60 requests per key in a window of 60 000 ms. */
  const RateLimit: int := 60
  const RateWindow: int := 60000

  const TooManyMessage := "Too many requests. Please try again later."

  /** One key's counter and the time its window ends. */
  datatype Entry = Entry(count: int, resetAt: int)

  /**
   * `isRateLimited(key)` on a given map: whether the call is limited, and
   * the map after it. An unseen key, or one whose window ended before `now`,
   * starts a new window with count 1; otherwise the count goes up by one and
   * the call is limited once it passes 60.
   */
  function RateStep(m: map<string, Entry>, key: string, now: int): (bool, map<string, Entry>)
  {
    if key !in m || now > m[key].resetAt then (false, m[key := Entry(1, now + RateWindow)])
    else (m[key].count + 1 > RateLimit, m[key := m[key].(count := m[key].count + 1)])
  }

  /**
   * One call: a new window is never limited; inside a window (its last
   * millisecond included) the count rises by exactly one, the window end
   * stays, and the call is limited exactly when the new count passes 60,
   * so limited calls count too. No other key's entry changes.
   */
  lemma RateStepFacts(m: map<string, Entry>, key: string, now: int)
    ensures var (limited, m') := RateStep(m, key, now);
      && key in m'
      && (forall k | k != key :: (k in m' <==> k in m) && (k in m ==> m'[k] == m[k]))
      && (key !in m || now > m[key].resetAt ==> !limited && m'[key] == Entry(1, now + RateWindow))
      && (key in m && now <= m[key].resetAt ==>
            && m'[key] == Entry(m[key].count + 1, m[key].resetAt)
            && (limited <==> m[key].count + 1 > RateLimit))
  {
  }

  /** The outcomes of successive calls for one key at the given times. */
  function Run(m: map<string, Entry>, key: string, times: seq<int>): (r: seq<bool>)
    ensures |r| == |times|
    decreases |times|
  {
    if |times| == 0 then []
    else
      var (limited, m') := RateStep(m, key, times[0]);
      [limited] + Run(m', key, times[1..])
  }

  /** Inside a window that has seen n calls, the k-th further call is
      limited exactly when n + k + 1 passes 60. */
  lemma {:induction false} RunInWindow(m: map<string, Entry>, key: string, times: seq<int>, n: int)
    requires key in m && m[key].count == n
    requires forall k | 0 <= k < |times| :: times[k] <= m[key].resetAt
    ensures forall k | 0 <= k < |times| :: Run(m, key, times)[k] == (n + k + 1 > RateLimit)
  {
    if |times| > 0 {
      var (limited, m') := RateStep(m, key, times[0]);
      assert m'[key] == Entry(n + 1, m[key].resetAt);
      RunInWindow(m', key, times[1..], n + 1);
      var r := Run(m, key, times);
      assert r == [limited] + Run(m', key, times[1..]);
      forall k | 0 <= k < |times|
        ensures r[k] == (n + k + 1 > RateLimit)
      {
        if k > 0 {
          assert r[k] == Run(m', key, times[1..])[k - 1];
        }
      }
    }
  }

  /**
   * From a fresh window (an unseen key, or one whose window has ended), of
   * calls made within 60 000 ms of the first the first 60 pass and every
   * later one is limited.
   */
  lemma {:induction false} FirstSixtyPass(m: map<string, Entry>, key: string, times: seq<int>)
    requires |times| > 0
    requires key !in m || times[0] > m[key].resetAt
    requires forall k | 0 <= k < |times| :: times[k] <= times[0] + RateWindow
    ensures forall k | 0 <= k < |times| :: Run(m, key, times)[k] == (k >= RateLimit)
  {
    var (limited, m') := RateStep(m, key, times[0]);
    RunInWindow(m', key, times[1..], 1);
    var r := Run(m, key, times);
    forall k | 0 <= k < |times|
      ensures r[k] == (k >= RateLimit)
    {
      if k > 0 {
        assert r[k] == Run(m', key, times[1..])[k - 1];
      }
    }
  }

  /** The limiter with its map of per-key entries. */
  class RateLimiter {
    var rateMap: map<string, Entry>

    constructor ()
      ensures rateMap == map[]
    {
      rateMap := map[];
    }

    /** `isRateLimited(key)`, with `Date.now()` passed in as `now`. */
    method IsRateLimited(key: string, now: int) returns (limited: bool)
      modifies this
      ensures (limited, rateMap) == RateStep(old(rateMap), key, now)
    {
      if key !in rateMap || now > rateMap[key].resetAt {
        rateMap := rateMap[key := Entry(1, now + RateWindow)];
        return false;
      }
      var entry := rateMap[key].(count := rateMap[key].count + 1);
      rateMap := rateMap[key := entry];
      return entry.count > RateLimit;
    }
  }

  /**
   * The client address: the first entry of `x-forwarded-for`, trimmed, or
   * "unknown" when the header is absent or that entry is blank.
   */
  function ClientAddress(forwardedFor: Option<string>): (ip: string)
    ensures ip != "" && (ip == "unknown" || ',' !in ip)
  {
    if forwardedFor.None? then "unknown"
    else
      var first := Split(forwardedFor.value, ',')[0];
      var t := Trim(first);
      if t == "" then "unknown"
      else
        assert ',' !in first;
        TrimInfixNoSep(first, t);
        t
  }

  /** A trimmed string has no character its source lacks. */
  lemma TrimInfixNoSep(s: string, t: string)
    requires Contains(s, t) && ',' !in s
    ensures ',' !in t
  {
    if ',' in t {
      ContainsChar(s, t);
    }
  }

  lemma {:induction false} ContainsChar(s: string, t: string)
    requires Contains(s, t)
    ensures forall ch | ch in t :: ch in s
    decreases |s|
  {
    if !StartsWith(s, t) {
      assert |s| > 0;
      ContainsChar(s[1..], t);
    } else {
      forall ch | ch in t
        ensures ch in s
      {
        var i :| 0 <= i < |t| && t[i] == ch;
        assert s[i] == ch;
      }
    }
  }

  /** The limiter's key: the client address, ':', then the path. */
  function RateKey(forwardedFor: Option<string>, pathname: string): string
  {
    ClientAddress(forwardedFor) + ":" + pathname
  }

  /** The key names the first hop: for a header "a, b, ..." whose first
      entry is not blank, the key is that entry trimmed, ':' and the path. */
  lemma {:induction false} KeyOfFirstHop(first: string, rest: string, pathname: string)
    requires ',' !in first && Trim(first) != ""
    ensures RateKey(Some(first + "," + rest), pathname) == Trim(first) + ":" + pathname
  {
    SplitCons(first, rest, ',');
    assert first + "," + rest == first + [','] + rest;
  }

  /** What the middleware does with a request. */
  datatype Outcome = TooManyRequests(status: int, error: string) | PassThrough

  /** The middleware on a given map: its outcome and the map after it. */
  function MiddlewareStep(m: map<string, Entry>, forwardedFor: Option<string>, pathname: string, now: int)
    : (Outcome, map<string, Entry>)
  {
    if !StartsWith(pathname, "/api/") then (PassThrough, m)
    else
      var (limited, m') := RateStep(m, RateKey(forwardedFor, pathname), now);
      (if limited then TooManyRequests(429, TooManyMessage) else PassThrough, m')
  }

  /**
   * Only paths under "/api/" are counted; others pass and leave the map as
   * it was. An API request is answered 429 exactly when the limiter says
   * its key is over the limit.
   */
  lemma MiddlewareOutcome(m: map<string, Entry>, forwardedFor: Option<string>, pathname: string, now: int)
    ensures var (o, m') := MiddlewareStep(m, forwardedFor, pathname, now);
      && (!StartsWith(pathname, "/api/") ==> o == PassThrough && m' == m)
      && (StartsWith(pathname, "/api/") ==>
            var key := RateKey(forwardedFor, pathname);
            && m' == RateStep(m, key, now).1
            && (o.TooManyRequests? <==> RateStep(m, key, now).0)
            && (o.TooManyRequests? ==> o == TooManyRequests(429, TooManyMessage)))
  {
  }

  /** `middleware(req)` on the limiter object. */
  method Handle(limiter: RateLimiter, forwardedFor: Option<string>, pathname: string, now: int) returns (o: Outcome)
    modifies limiter
    ensures (o, limiter.rateMap) == MiddlewareStep(old(limiter.rateMap), forwardedFor, pathname, now)
  {
    if !StartsWith(pathname, "/api/") {
      return PassThrough;
    }
    var key := RateKey(forwardedFor, pathname);
    var limited := limiter.IsRateLimited(key, now);
    if limited {
      return TooManyRequests(429, TooManyMessage);
    }
    return PassThrough;
  }
}
