/** The in-memory sliding-window rate limiter: per key, the times of the
    requests admitted within the window; a request is admitted while fewer
    than `maxRequests` remain in the window. Time is an integer clock
    passed in by the caller. */
module RateLimit {
  import opened Common

  /** The request times of `ts` later than `after`, in order (the list
      comprehension that drops old requests). */
  function Recent(ts: seq<int>, after: int): (r: seq<int>)
    ensures |r| <= |ts|
    ensures forall i :: 0 <= i < |r| ==> r[i] > after
    ensures forall t :: t in ts && t > after ==> t in r
    ensures forall t :: t in r ==> t in ts
    decreases |ts|
  {
    if |ts| == 0 then []
    else
      var rest := Recent(ts[..|ts| - 1], after);
      if ts[|ts| - 1] > after then rest + [ts[|ts| - 1]] else rest
  }

  /** Filtering twice keeps what the later cut-off keeps. */
  lemma {:induction false} RecentTwice(ts: seq<int>, a: int, b: int)
    requires a <= b
    ensures Recent(Recent(ts, a), b) == Recent(ts, b)
    decreases |ts|
  {
    if |ts| > 0 {
      var init, last := ts[..|ts| - 1], ts[|ts| - 1];
      RecentTwice(init, a, b);
      RecentAppend(Recent(init, a), last, b);
    }
  }

  lemma RecentAppend(ts: seq<int>, t: int, after: int)
    ensures Recent(ts + [t], after) == if t > after then Recent(ts, after) + [t] else Recent(ts, after)
  {
    assert (ts + [t])[..|ts|] == ts;
  }

  /** One call of `is_allowed`: the decision, the remaining allowance and
      the new table. */
  datatype Decision = Decision(allowed: bool, remaining: int, requests: map<string, seq<int>>)

  /** The key's list, an absent key reading as empty. */
  function ListOf(reqs: map<string, seq<int>>, key: string): seq<int>
  {
    if key in reqs then reqs[key] else []
  }

  /** `is_allowed` at time `now`: drop the key's requests that are not
      later than `now - windowSeconds`; refuse if `maxRequests` remain;
      otherwise admit and record `now`. */
  function Admit(reqs: map<string, seq<int>>, key: string, maxRequests: int, windowSeconds: int, now: int): (d: Decision)
    ensures d.requests.Keys == reqs.Keys + {key}
    ensures forall k :: k in reqs && k != key ==> d.requests[k] == reqs[k]
    ensures d.allowed ==> 0 <= d.remaining < maxRequests
                          && d.requests[key] == Recent(ListOf(reqs, key), now - windowSeconds) + [now]
    ensures !d.allowed ==> d.remaining == 0 && d.requests[key] == Recent(ListOf(reqs, key), now - windowSeconds)
  {
    var kept := Recent(ListOf(reqs, key), now - windowSeconds);
    if |kept| >= maxRequests then Decision(false, 0, reqs[key := kept])
    else Decision(true, maxRequests - (|kept| + 1), reqs[key := kept + [now]])
  }

  /** The decision: admitted exactly when fewer than `maxRequests` requests
      remain in the window, and then the allowance is what the window has
      left after this request. */
  lemma AdmitDecides(reqs: map<string, seq<int>>, key: string, maxRequests: int, windowSeconds: int, now: int)
    ensures var d := Admit(reqs, key, maxRequests, windowSeconds, now);
      var kept := Recent(ListOf(reqs, key), now - windowSeconds);
      && (d.allowed <==> |kept| < maxRequests)
      && (d.allowed ==> d.remaining == maxRequests - |d.requests[key]|)
  {
  }

  /** No list is longer than `maxRequests`. */
  predicate WithinLimit(reqs: map<string, seq<int>>, maxRequests: int)
  {
    forall k :: k in reqs ==> |reqs[k]| <= maxRequests
  }

  /** With one fixed limit, no key's list ever exceeds it. */
  lemma AdmitKeepsLimit(reqs: map<string, seq<int>>, key: string, maxRequests: int, windowSeconds: int, now: int)
    requires maxRequests >= 0 && WithinLimit(reqs, maxRequests)
    ensures WithinLimit(Admit(reqs, key, maxRequests, windowSeconds, now).requests, maxRequests)
  {
  }

  /** With a positive window, every request kept for the key lies inside
      the window. */
  lemma AdmitKeepsWindow(reqs: map<string, seq<int>>, key: string, maxRequests: int, windowSeconds: int, now: int)
    requires windowSeconds > 0
    ensures var l := Admit(reqs, key, maxRequests, windowSeconds, now).requests[key];
      forall i :: 0 <= i < |l| ==> l[i] > now - windowSeconds
  {
  }

  /** The age after which `cleanup_old_entries` drops a request. */
  const CleanupAge: int := 3600

  /** `cleanup_old_entries` at cut-off `cutoff`: each list filtered, and
      keys whose list became empty removed. */
  function Pruned(reqs: map<string, seq<int>>, cutoff: int): (r: map<string, seq<int>>)
    ensures r.Keys <= reqs.Keys
    ensures forall k :: k in r ==> r[k] != [] && forall i :: 0 <= i < |r[k]| ==> r[k][i] > cutoff
  {
    map k | k in reqs && Recent(reqs[k], cutoff) != [] :: Recent(reqs[k], cutoff)
  }

  /** Clean-up keeps every key that has a request after the cut-off. */
  lemma PrunedShape(reqs: map<string, seq<int>>, cutoff: int)
    ensures var p := Pruned(reqs, cutoff);
      forall k :: k in reqs && (exists t :: t in reqs[k] && t > cutoff) ==> k in p
  {
    var p := Pruned(reqs, cutoff);
    forall k | k in reqs && (exists t :: t in reqs[k] && t > cutoff)
      ensures k in p
    {
      var t :| t in reqs[k] && t > cutoff;
      assert t in Recent(reqs[k], cutoff);
    }
  }

  /** Clean-up is invisible to later decisions: for any window of at most
      an hour, a request at or after the clean-up gets the same answer
      and the same allowance as without it. */
  lemma PrunedAdmitsAlike(reqs: map<string, seq<int>>, cleanedAt: int, key: string,
                          maxRequests: int, windowSeconds: int, now: int)
    requires windowSeconds <= CleanupAge && cleanedAt <= now
    ensures var a := Admit(Pruned(reqs, cleanedAt - CleanupAge), key, maxRequests, windowSeconds, now);
      var b := Admit(reqs, key, maxRequests, windowSeconds, now);
      a.allowed == b.allowed && a.remaining == b.remaining && a.requests[key] == b.requests[key]
  {
    var cutoff := cleanedAt - CleanupAge;
    var p := Pruned(reqs, cutoff);
    if key in reqs {
      RecentTwice(reqs[key], cutoff, now - windowSeconds);
      if key !in p {
        assert Recent(reqs[key], cutoff) == [];
      }
    }
  }

  /** The limiter: request times per key. */
  class RateLimiter {
    var requests: map<string, seq<int>>

    constructor ()
      ensures requests == map[]
    {
      requests := map[];
    }

    /** `is_allowed`. */
    method IsAllowed(key: string, maxRequests: int, windowSeconds: int, now: int) returns (allowed: bool, remaining: int)
      modifies this
      ensures var d := Admit(old(requests), key, maxRequests, windowSeconds, now);
        allowed == d.allowed && remaining == d.remaining && requests == d.requests
    {
      var windowStart := now - windowSeconds;
      if key !in requests {
        requests := requests[key := []];
      }
      requests := requests[key := Recent(requests[key], windowStart)];
      var currentCount := |requests[key]|;
      if currentCount >= maxRequests {
        return false, 0;
      }
      requests := requests[key := requests[key] + [now]];
      remaining := maxRequests - (currentCount + 1);
      return true, remaining;
    }

    /** `cleanup_old_entries`: filter every list to the last hour, then
        remove the keys left empty. */
    method CleanupOldEntries(now: int)
      modifies this
      ensures requests == Pruned(old(requests), now - CleanupAge)
    {
      var cutoff := now - CleanupAge;
      var rest := requests.Keys;
      var keysToRemove: set<string> := {};
      while rest != {}
        invariant rest <= requests.Keys && requests.Keys == old(requests).Keys
        invariant forall k :: k in rest ==> requests[k] == old(requests)[k]
        invariant forall k :: k in requests && k !in rest ==> requests[k] == Recent(old(requests)[k], cutoff)
        invariant forall k :: k in keysToRemove <==> k in requests && k !in rest && requests[k] == []
        decreases rest
      {
        var k :| k in rest;
        requests := requests[k := Recent(requests[k], cutoff)];
        if requests[k] == [] {
          keysToRemove := keysToRemove + {k};
        }
        rest := rest - {k};
      }
      ghost var filtered := requests;
      while keysToRemove != {}
        invariant keysToRemove <= requests.Keys <= filtered.Keys
        invariant forall k :: k in requests ==> requests[k] == filtered[k]
        invariant forall k :: k in filtered ==> (k in requests <==> k in keysToRemove || filtered[k] != [])
        decreases keysToRemove
      {
        var k :| k in keysToRemove;
        requests := requests - {k};
        keysToRemove := keysToRemove - {k};
      }
    }
  }

  /** The client address a request is limited under: the first entry of a
      non-empty X-Forwarded-For header, trimmed; else a non-empty
      X-Real-IP header; else the connection's host; else "unknown". */
  function ClientIp(forwardedFor: Option<string>, realIp: Option<string>, clientHost: Option<string>): (r: string)
    ensures forwardedFor.Some? && forwardedFor.value != "" ==>
              r == Strip(forwardedFor.value[..IndexOf(forwardedFor.value, ',')], Whitespace)
              && ',' !in r && |r| <= |forwardedFor.value| && (forall c :: c in r ==> c in forwardedFor.value)
              && (|r| > 0 ==> r[0] !in Whitespace && r[|r| - 1] !in Whitespace)
    ensures (forwardedFor.None? || forwardedFor.value == "") && realIp.Some? && realIp.value != "" ==> r == realIp.value
    ensures (forwardedFor.None? || forwardedFor.value == "") && (realIp.None? || realIp.value == "") ==>
              r == (if clientHost.Some? then clientHost.value else "unknown")
  {
    if forwardedFor.Some? && forwardedFor.value != "" then
      var first := Split(forwardedFor.value, ',')[0];
      SplitPieceWithin(forwardedFor.value, ',', 0);
      SplitFirstPiece(forwardedFor.value, ',');
      Strip(first, Whitespace)
    else if realIp.Some? && realIp.value != "" then realIp.value
    else if clientHost.Some? then clientHost.value
    else "unknown"
  }

  /** Every piece of a split is made of characters of the whole. */
  lemma {:induction false} SplitPieceWithin(s: string, sep: char, k: int)
    requires 0 <= k < |Split(s, sep)|
    ensures |Split(s, sep)[k]| <= |s| && forall c :: c in Split(s, sep)[k] ==> c in s
    decreases |s|
  {
    var i := LastIndexOf(s, sep);
    if i >= 0 {
      var left := Split(s[..i], sep);
      if k < |left| {
        SplitPieceWithin(s[..i], sep, k);
        assert Split(s, sep)[k] == left[k];
      } else {
        assert Split(s, sep)[k] == s[i + 1..];
      }
    }
  }

  /** The key a client is limited under: `prefix:ip`, or the bare address
      without a prefix. */
  function LimitKey(prefix: string, ip: string): (key: string)
    ensures prefix == "" ==> key == ip
    ensures prefix != "" ==> StartsWith(key, prefix + ":") && key[|prefix| + 1..] == ip
  {
    if prefix != "" then prefix + ":" + ip else ip
  }

  /** HTTP 429 with the window as its Retry-After value. */
  datatype TooManyRequests = TooManyRequests(statusCode: int, retryAfterSeconds: int)

  /** `check_rate_limit`: refuse with 429 exactly when the limiter refuses. */
  method CheckRateLimit(limiter: RateLimiter, forwardedFor: Option<string>, realIp: Option<string>,
                        clientHost: Option<string>, maxRequests: int, windowSeconds: int, prefix: string, now: int)
    returns (error: Option<TooManyRequests>)
    modifies limiter
    ensures var d := Admit(old(limiter.requests), LimitKey(prefix, ClientIp(forwardedFor, realIp, clientHost)),
                           maxRequests, windowSeconds, now);
      limiter.requests == d.requests
      && (error.None? <==> d.allowed)
      && (error.Some? ==> error.value == TooManyRequests(429, windowSeconds))
  {
    var ip := ClientIp(forwardedFor, realIp, clientHost);
    var key := if prefix != "" then prefix + ":" + ip else ip;
    var allowed, remaining := limiter.IsAllowed(key, maxRequests, windowSeconds, now);
    if !allowed {
      return Some(TooManyRequests(429, windowSeconds));
    }
    return None;
  }
}
