/**
 * The sliding-window rate limiter run before every request: per client
 * address, the times of its recent admitted requests. The request global that
 * switches the check on and the clock are explicit inputs.
 */
module RateLimit {
  import opened Wrappers
  import opened ErrorHandlers

  const DEFAULT_LIMIT := 60
  const DEFAULT_WINDOW := 60
  const TOO_MANY_REQUESTS := 429

  /** The response that refuses a request. */
  datatype Rejection = Rejection(body: ErrorResponse, status: int)

  const RateLimited := Rejection(ErrorResponse("error", ErrorBody(TOO_MANY_REQUESTS, "Rate limit exceeded", None)), TOO_MANY_REQUESTS)

  /** The times recorded for a client; none for an unknown one. */
  function History(requests: map<string, seq<int>>, ip: string): seq<int>
  {
    if ip in requests then requests[ip] else []
  }

  /** The recorded times still inside the window at `now`, in their order. */
  function Prune(times: seq<int>, now: int, window: int): (kept: seq<int>)
    ensures |kept| <= |times|
  {
    if times == [] then []
    else
      var rest := Prune(times[..|times| - 1], now, window);
      var t := times[|times| - 1];
      if now - t < window then rest + [t] else rest
  }

  /** Pruning keeps exactly the times inside the window: each kept time is recent, each recent time is kept. */
  lemma {:induction false} PruneKeepsExactlyRecent(times: seq<int>, now: int, window: int)
    ensures forall t :: t in Prune(times, now, window) <==> t in times && now - t < window
    decreases |times|
  {
    if times != [] {
      var init := times[..|times| - 1];
      PruneKeepsExactlyRecent(init, now, window);
      assert times == init + [times[|times| - 1]];
    }
  }

  /** Pruning keeps every time inside the window as often as it was recorded, and no other. */
  lemma {:induction false} PruneCounts(times: seq<int>, now: int, window: int, t: int)
    ensures multiset(Prune(times, now, window))[t] == if now - t < window then multiset(times)[t] else 0
    decreases |times|
  {
    if times != [] {
      var init := times[..|times| - 1];
      PruneCounts(init, now, window, t);
      assert times == init + [times[|times| - 1]];
    }
  }

  /** Nothing is kept of a record whose every time has left the window. */
  lemma {:induction false} PruneOld(times: seq<int>, now: int, window: int)
    requires forall i :: 0 <= i < |times| ==> now - times[i] >= window
    ensures Prune(times, now, window) == []
    decreases |times|
  {
    if times != [] {
      PruneOld(times[..|times| - 1], now, window);
    }
  }

  /** Times recorded in order, oldest first. */
  predicate Chronological(times: seq<int>)
  {
    forall i, j :: 0 <= i < j < |times| ==> times[i] <= times[j]
  }

  /**
   * A history recorded in time order loses only its oldest entries: what
   * pruning keeps is a suffix of it, in the same order.
   */
  lemma {:induction false} PruneDropsOldest(times: seq<int>, now: int, window: int)
    requires Chronological(times)
    ensures Prune(times, now, window) == times[|times| - |Prune(times, now, window)|..]
    decreases |times|
  {
    if times != [] {
      var init := times[..|times| - 1];
      var t := times[|times| - 1];
      assert Chronological(init);
      if now - t < window {
        PruneDropsOldest(init, now, window);
        var k := |init| - |Prune(init, now, window)|;
        assert times == init + [t];
        assert init[k..] + [t] == times[k..];
      } else {
        assert forall i :: 0 <= i < |init| ==> times[i] <= t;
        PruneOld(init, now, window);
      }
    }
  }

  /**
   * One check for client `ip` at time `now`: the answer (a rejection or
   * nothing, letting the request through) and the new table.
   */
  function Check(requests: map<string, seq<int>>, enabled: bool, ip: string, now: int, limit: int, window: int)
    : (r: (Option<Rejection>, map<string, seq<int>>))
    ensures !enabled ==> r == (None, requests)
    ensures enabled ==> r.1.Keys == requests.Keys + {ip}
    ensures forall other :: other != ip && other in requests ==> other in r.1 && r.1[other] == requests[other]
    ensures enabled ==> (r.0.Some? <==> |Prune(History(requests, ip), now, window)| >= limit)
    ensures r.0.Some? ==> r.0.value == RateLimited
    ensures enabled ==>
      ip in r.1 && r.1[ip] == (if r.0.Some? then Prune(History(requests, ip), now, window)
                               else Prune(History(requests, ip), now, window) + [now])
  {
    if !enabled then (None, requests)
    else
      var pruned := Prune(History(requests, ip), now, window);
      if |pruned| >= limit then (Some(RateLimited), requests[ip := pruned])
      else (None, requests[ip := pruned + [now]])
  }

  /**
   * Every record stays in time order when the clock does not run backwards:
   * if no recorded time lies after `now`, the check keeps each record oldest
   * first, so later prunings only drop its oldest entries.
   */
  lemma CheckKeepsChronological(requests: map<string, seq<int>>, enabled: bool, ip: string, now: int, limit: int, window: int)
    requires forall c :: c in requests ==> Chronological(requests[c])
    requires forall c, i :: c in requests && 0 <= i < |requests[c]| ==> requests[c][i] <= now
    ensures var next := Check(requests, enabled, ip, now, limit, window).1;
      forall c :: c in next ==> Chronological(next[c])
  {
    if enabled {
      var h := History(requests, ip);
      assert Chronological(h) && forall i :: 0 <= i < |h| ==> h[i] <= now;
      PruneDropsOldest(h, now, window);
      SuffixChronological(h, |h| - |Prune(h, now, window)|, now);
    }
  }

  /** A suffix of an ordered record is ordered, and stays so with a time not earlier than any of it appended. */
  lemma SuffixChronological(h: seq<int>, k: int, now: int)
    requires Chronological(h) && 0 <= k <= |h|
    requires forall i :: 0 <= i < |h| ==> h[i] <= now
    ensures Chronological(h[k..]) && Chronological(h[k..] + [now])
  {
    var s := h[k..] + [now];
    forall i, j | 0 <= i < j < |s|
      ensures s[i] <= s[j]
    {
      assert s[i] == h[k + i];
      if j < |s| - 1 {
        assert s[j] == h[k + j];
      }
    }
  }

  /** No client has more than `limit` recorded times (none at all when `limit` is not positive). */
  predicate Bounded(requests: map<string, seq<int>>, limit: int)
  {
    forall ip :: ip in requests ==> |requests[ip]| <= if limit < 0 then 0 else limit
  }

  /** Every check keeps each client's record within the limit. */
  lemma CheckKeepsBound(requests: map<string, seq<int>>, enabled: bool, ip: string, now: int, limit: int, window: int)
    requires Bounded(requests, limit)
    ensures Bounded(Check(requests, enabled, ip, now, limit, window).1, limit)
  {
  }

  /** A client with no recorded requests is let through whenever the limit is at least 1. */
  lemma NewClientAdmitted(requests: map<string, seq<int>>, ip: string, now: int, limit: int, window: int)
    requires ip !in requests && limit >= 1
    ensures Check(requests, true, ip, now, limit, window).0.None?
    ensures Check(requests, true, ip, now, limit, window).1[ip] == [now]
  {
  }

  /** `n` copies of `t`. */
  function Repeat(t: int, n: nat): (s: seq<int>)
    ensures |s| == n && forall i :: 0 <= i < n ==> s[i] == t
  {
    if n == 0 then [] else Repeat(t, n - 1) + [t]
  }

  /** The table after `n` checks for `ip` at the same time `t`. */
  function Burst(requests: map<string, seq<int>>, ip: string, t: int, n: nat, limit: int, window: int)
    : map<string, seq<int>>
  {
    if n == 0 then requests else Check(Burst(requests, ip, t, n - 1, limit, window), true, ip, t, limit, window).1
  }

  lemma {:induction false} PruneRecent(times: seq<int>, now: int, window: int)
    requires forall i :: 0 <= i < |times| ==> now - times[i] < window
    ensures Prune(times, now, window) == times
    decreases |times|
  {
    if times != [] {
      PruneRecent(times[..|times| - 1], now, window);
      assert times == times[..|times| - 1] + [times[|times| - 1]];
    }
  }

  function Min(a: int, b: int): int
  {
    if a < b then a else b
  }

  /** After `n` requests at time `t` from a fresh client, its record holds `min(n, limit)` copies of `t`. */
  lemma {:induction false} BurstHistory(ip: string, t: int, n: nat, limit: int, window: int)
    requires window > 0 && limit >= 0
    ensures History(Burst(map[], ip, t, n, limit, window), ip) == Repeat(t, Min(n, limit))
    decreases n
  {
    if n > 0 {
      BurstHistory(ip, t, n - 1, limit, window);
      var prev := Burst(map[], ip, t, n - 1, limit, window);
      var h := History(prev, ip);
      PruneRecent(h, t, window);
      var c := Check(prev, true, ip, t, limit, window);
      assert History(Burst(map[], ip, t, n, limit, window), ip) == c.1[ip];
      if c.0.None? {
        assert c.1[ip] == Repeat(t, n);
      }
    }
  }

  /**
   * Within one window, a burst of requests from a fresh client is let through
   * exactly up to the limit: request number `n + 1` is refused exactly when
   * `n` has reached the limit.
   */
  lemma BurstAdmitsUpToLimit(ip: string, t: int, n: nat, limit: int, window: int)
    requires window > 0 && limit >= 0
    ensures Check(Burst(map[], ip, t, n, limit, window), true, ip, t, limit, window).0.Some? <==> n >= limit
  {
    var before := Burst(map[], ip, t, n, limit, window);
    BurstHistory(ip, t, n, limit, window);
    PruneRecent(History(before, ip), t, window);
  }

  class RateLimiter {
    const limit: int
    const window: int
    var requests: map<string, seq<int>>

    /** A limiter allowing `limit` requests per `window` seconds, with no history. */
    constructor (limit: int, window: int)
      ensures this.limit == limit && this.window == window && requests == map[]
    {
      this.limit := limit;
      this.window := window;
      requests := map[];
    }

    /**
     * `before_request`: nothing happens unless the check is enabled; otherwise
     * the client's record is replaced by its times inside the window, and the
     * request is refused with 429 when that record has reached the limit, or
     * let through and its time recorded.
     */
    method BeforeRequest(enabled: bool, clientIp: string, now: int) returns (r: Option<Rejection>)
      modifies this
      ensures (r, requests) == Check(old(requests), enabled, clientIp, now, limit, window)
    {
      if !enabled {
        return None;
      }
      if clientIp !in requests {
        requests := requests[clientIp := []];
      }
      var old_times := requests[clientIp];
      var kept: seq<int> := [];
      var i := 0;
      while i < |old_times|
        invariant 0 <= i <= |old_times|
        invariant kept == Prune(old_times[..i], now, window)
      {
        if now - old_times[i] < window {
          kept := kept + [old_times[i]];
        }
        i := i + 1;
        assert old_times[..i][..i - 1] == old_times[..i - 1];
      }
      assert old_times[..i] == old_times;
      assert old_times == History(old(requests), clientIp);
      requests := requests[clientIp := kept];
      assert requests == old(requests)[clientIp := kept];
      if |requests[clientIp]| >= limit {
        return Some(RateLimited);
      }
      requests := requests[clientIp := requests[clientIp] + [now]];
      assert requests == old(requests)[clientIp := kept + [now]];
      return None;
    }
  }
}
