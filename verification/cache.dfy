/**
 * The caching service: an in-memory table of entries with optional expiry
 * times, the key derived from a function call, the memoising wrapper built on
 * the cache, and the choice of backend. The clock is passed in as `now`.
 */
module Cache {
  import opened Wrappers
  import opened Strings

  /** Default time to live, in seconds, of entries stored through the service. */
  const CACHE_TIMEOUT := 300

  /** Keys longer than this are replaced by their digest. */
  const MAX_KEY_LENGTH := 250

  /** A stored value and its absolute expiry time, if any. */
  datatype Entry<V> = Entry(value: V, expiry: Option<int>)

  /** An entry is stale once its expiry is set, non-zero (truthy) and has passed. */
  predicate Expired<V>(e: Entry<V>, now: int)
  {
    e.expiry.Some? && e.expiry.value != 0 && now > e.expiry.value
  }

  /** The expiry `set` records: `now + ttl`, or none without a ttl. */
  function ExpiryFor(ttl: Option<int>, now: int): (expiry: Option<int>)
    ensures expiry.Some? <==> ttl.Some?
    ensures ttl.Some? ==> expiry.value - now == ttl.value
  {
    if ttl.Some? then Some(now + ttl.value) else None
  }

  // ---------------------------------------------------------------------------
  // The entry table as a value
  // ---------------------------------------------------------------------------

  /** What `get` answers at time `now`. */
  function Lookup<V>(m: map<string, Entry<V>>, key: string, now: int): Option<V>
  {
    if key !in m || Expired(m[key], now) then None else Some(m[key].value)
  }

  /** The table after `get`: a stale entry for the key is dropped. */
  function Evict<V>(m: map<string, Entry<V>>, key: string, now: int): (m': map<string, Entry<V>>)
    ensures key in m && Expired(m[key], now) ==> m' == m - {key}
    ensures !(key in m && Expired(m[key], now)) ==> m' == m
  {
    if key in m && Expired(m[key], now) then m - {key} else m
  }

  /** The table after `set(key, value, ttl)` at time `now`. */
  function Put<V>(m: map<string, Entry<V>>, key: string, value: V, ttl: Option<int>, now: int): map<string, Entry<V>>
  {
    m[key := Entry(value, ExpiryFor(ttl, now))]
  }

  /** The entries `_cleanup_expired` keeps. */
  function Live<V>(m: map<string, Entry<V>>, now: int): map<string, Entry<V>>
  {
    map k | k in m && !Expired(m[k], now) :: m[k]
  }

  /** The keys `_cleanup_expired` removes. */
  function StaleKeys<V>(m: map<string, Entry<V>>, now: int): set<string>
  {
    set k | k in m && Expired(m[k], now)
  }

  /**
   * After `set(key, value, ttl)` at time `t`, `get(key)` at time `now` returns
   * the value exactly until the expiry `t + ttl` has passed; without a ttl
   * (or with an expiry of 0, which Python treats as false) it never expires.
   */
  lemma SetThenGet<V>(m: map<string, Entry<V>>, key: string, value: V, ttl: Option<int>, t: int, now: int)
    ensures Lookup(Put(m, key, value, ttl, t), key, now) == Some(value)
        <==> ttl.None? || t + ttl.value == 0 || now <= t + ttl.value
    ensures Lookup(Put(m, key, value, ttl, t), key, now) != Some(value) ==>
              Lookup(Put(m, key, value, ttl, t), key, now).None?
  {
  }

  /** `set` on one key leaves what `get` answers for every other key unchanged. */
  lemma SetKeepsOthers<V>(m: map<string, Entry<V>>, key: string, other: string, value: V, ttl: Option<int>, t: int, now: int)
    requires other != key
    ensures Lookup(Put(m, key, value, ttl, t), other, now) == Lookup(m, other, now)
  {
  }

  /** Once `get` has found an entry stale, it stays stale at any later time. */
  lemma StaleStaysStale<V>(m: map<string, Entry<V>>, key: string, now: int, later: int)
    requires key in m && Expired(m[key], now) && now <= later
    ensures Lookup(m, key, later).None?
  {
  }

  /** Lazy deletion is invisible: evicting a key never changes what `get` answers at that time. */
  lemma EvictPreservesLookup<V>(m: map<string, Entry<V>>, key: string, other: string, now: int)
    ensures Lookup(Evict(m, key, now), other, now) == Lookup(m, other, now)
  {
  }

  /** Sweeping stale entries never changes what `get` answers at that time. */
  lemma LivePreservesLookup<V>(m: map<string, Entry<V>>, key: string, now: int)
    ensures Lookup(Live(m, now), key, now) == Lookup(m, key, now)
  {
  }

  // ---------------------------------------------------------------------------
  // The in-memory cache object
  // ---------------------------------------------------------------------------

  class InMemoryCache<V> {
    var entries: map<string, Entry<V>>

    /** A new, empty cache (the sweeping thread it also starts is not modelled). */
    constructor ()
      ensures entries == map[]
    {
      entries := map[];
    }

    /** `get`: the value unless missing or stale; a stale entry is deleted on the way. */
    method Get(key: string, now: int) returns (r: Option<V>)
      modifies this
      ensures r == Lookup(old(entries), key, now)
      ensures entries == Evict(old(entries), key, now)
    {
      if key !in entries {
        return None;
      }
      var item := entries[key];
      if item.expiry.Some? && item.expiry.value != 0 && now > item.expiry.value {
        entries := entries - {key};
        return None;
      }
      return Some(item.value);
    }

    /** `set`: overwrites the key's entry with the value and its expiry; always succeeds. */
    method Set(key: string, value: V, ttl: Option<int>, now: int) returns (ok: bool)
      modifies this
      ensures ok
      ensures entries == Put(old(entries), key, value, ttl, now)
    {
      var expiry := if ttl.Some? then Some(now + ttl.value) else None;
      entries := entries[key := Entry(value, expiry)];
      return true;
    }

    /** `delete`: true exactly when the key was present; the key is absent afterwards. */
    method Delete(key: string) returns (deleted: bool)
      modifies this
      ensures deleted <==> key in old(entries)
      ensures entries == old(entries) - {key}
    {
      if key in entries {
        entries := entries - {key};
        return true;
      }
      return false;
    }

    /** `clear`: drops every entry; always succeeds. */
    method Clear() returns (ok: bool)
      modifies this
      ensures ok && entries == map[]
    {
      entries := map[];
      return true;
    }

    /**
     * The first loop of `_cleanup_expired`: the keys of the stale entries,
     * each once, and exactly those.
     */
    method StaleKeyList(now: int) returns (keys: seq<string>)
      ensures forall k :: k in keys <==> k in StaleKeys(entries, now)
      ensures |keys| == |StaleKeys(entries, now)|
    {
      keys := [];
      ghost var stale: set<string> := {};
      var todo := entries.Keys;
      while todo != {}
        invariant todo <= entries.Keys
        invariant forall k :: k in stale <==> k in entries && k !in todo && Expired(entries[k], now)
        invariant forall k :: k in keys <==> k in stale
        invariant |keys| == |stale|
        decreases todo
      {
        var k :| k in todo;
        if Expired(entries[k], now) {
          assert k !in stale;
          keys := keys + [k];
          stale := stale + {k};
        }
        todo := todo - {k};
      }
      assert stale == StaleKeys(entries, now);
    }

    /**
     * `_cleanup_expired`: collects the stale keys, then deletes them, and
     * returns how many there were.
     */
    method CleanupExpired(now: int) returns (count: nat)
      modifies this
      ensures entries == Live(old(entries), now)
      ensures count == |StaleKeys(old(entries), now)|
    {
      var keysToDelete := StaleKeyList(now);
      var i := 0;
      while i < |keysToDelete|
        invariant 0 <= i <= |keysToDelete|
        invariant entries == map k | k in old(entries) && k !in keysToDelete[..i] :: old(entries)[k]
      {
        entries := entries - {keysToDelete[i]};
        i := i + 1;
        assert keysToDelete[..i] == keysToDelete[..i - 1] + [keysToDelete[i - 1]];
      }
      assert keysToDelete[..i] == keysToDelete;
      return |keysToDelete|;
    }
  }

  // ---------------------------------------------------------------------------
  // Memoisation
  // ---------------------------------------------------------------------------

  /**
   * One call through the `cached` wrapper, as a value: given the table, the
   * call's key and what the function would return (`None` standing for
   * Python's `None`), the result, whether the function was called, and the
   * table afterwards. A stored non-`None` value is served; anything else
   * (missing, stale, or a stored `None`) calls the function and stores its result.
   * The clock is read twice: at the lookup (`now`) and again at the store,
   * after the function has returned (`tSet`), so the expiry counts from `tSet`.
   */
  function CachedStep<R>(m: map<string, Entry<Option<R>>>, key: string, ttl: Option<int>, now: int, tSet: int,
                         computed: Option<R>)
    : (r: (Option<R>, bool, map<string, Entry<Option<R>>>))
  {
    var hit := Lookup(m, key, now);
    if hit.Some? && hit.value.Some? then (hit.value, false, Evict(m, key, now))
    else (computed, true, Put(Evict(m, key, now), key, computed, ttl, tSet))
  }

  /** A hit returns the stored value and calls nothing; a miss returns exactly what the function returned. */
  lemma CachedStepResult<R>(m: map<string, Entry<Option<R>>>, key: string, ttl: Option<int>, now: int, tSet: int,
                            computed: Option<R>)
    ensures var (r, called, _) := CachedStep(m, key, ttl, now, tSet, computed);
      && (!called <==> Lookup(m, key, now).Some? && Lookup(m, key, now).value.Some?)
      && (!called ==> r == Lookup(m, key, now).value)
      && (called ==> r == computed)
  {
  }

  /**
   * A call whose function returned a value is served from the cache by a
   * later call with the same key, as long as the entry has not expired: the
   * function is not called again. The entry lives `ttl` from the moment it
   * was stored (`s1`), not from the lookup before the function ran (`t1`).
   */
  lemma SecondCallHits<R>(m: map<string, Entry<Option<R>>>, key: string, ttl: Option<int>,
                          t1: int, s1: int, v: R, t2: int, s2: int, computed2: Option<R>)
    requires CachedStep(m, key, ttl, t1, s1, Some(v)).1
    requires ttl.None? || s1 + ttl.value == 0 || t2 <= s1 + ttl.value
    ensures var m1 := CachedStep(m, key, ttl, t1, s1, Some(v)).2;
      CachedStep(m1, key, ttl, t2, s2, computed2).0 == Some(v) && !CachedStep(m1, key, ttl, t2, s2, computed2).1
  {
    var m1 := CachedStep(m, key, ttl, t1, s1, Some(v)).2;
    SetThenGet(Evict(m, key, t1), key, Some(v), ttl, s1, t2);
    assert Lookup(m1, key, t2) == Some(Some(v));
  }

  /**
   * A slow function lengthens its entry's life: with a ttl of 5, a call
   * looked up at 0 whose function returns at 3 is still served at 6.
   */
  lemma SlowCallStillServed<R>(m: map<string, Entry<Option<R>>>, key: string, v: R, computed2: Option<R>)
    requires key !in m
    ensures var m1 := CachedStep(m, key, Some(5), 0, 3, Some(v)).2;
      !CachedStep(m1, key, Some(5), 6, 6, computed2).1
  {
    SecondCallHits(m, key, Some(5), 0, 3, v, 6, 6, computed2);
  }

  /** A `None` result is never served from the cache: the next call runs the function again. */
  lemma NoneNeverCached<R>(m: map<string, Entry<Option<R>>>, key: string, ttl: Option<int>,
                           t1: int, s1: int, t2: int, s2: int, computed2: Option<R>)
    requires CachedStep(m, key, ttl, t1, s1, None).1
    ensures var m1 := CachedStep(m, key, ttl, t1, s1, None).2;
      CachedStep(m1, key, ttl, t2, s2, computed2).1
  {
    var m1 := CachedStep(m, key, ttl, t1, s1, None).2;
    assert m1[key].value.None?;
  }

  /**
   * The `cached` wrapper on the in-memory backend: look the key up at `now`,
   * else call the function and store its result at `tSet`, the clock reading
   * after it returned.
   */
  method Cached<R>(c: InMemoryCache<Option<R>>, key: string, ttl: Option<int>, now: int, tSet: int, computed: Option<R>)
      returns (r: Option<R>, called: bool)
    modifies c
    ensures (r, called, c.entries) == CachedStep(old(c.entries), key, ttl, now, tSet, computed)
  {
    var cachedValue := c.Get(key, now);
    if cachedValue.Some? && cachedValue.value.Some? {
      return cachedValue.value, false;
    }
    var ok := c.Set(key, computed, ttl, tSet);
    return computed, true;
  }

  // ---------------------------------------------------------------------------
  // Cache keys
  // ---------------------------------------------------------------------------

  /** A 32-character digest, standing for an MD5 hex digest. */
  type Digest = s: string | |s| == 32 witness "00000000000000000000000000000000"

  /** The keys of keyword arguments given in call order. */
  function KwKeys(kwargs: seq<(string, string)>): (keys: seq<string>)
    ensures |keys| == |kwargs|
  {
    if kwargs == [] then [] else [kwargs[0].0] + KwKeys(kwargs[1..])
  }

  /** The value of keyword `k`: the first pair named `k`. */
  function KwValue(kwargs: seq<(string, string)>, k: string): string
  {
    if kwargs == [] then "" else if kwargs[0].0 == k then kwargs[0].1 else KwValue(kwargs[1..], k)
  }

  /** `k=v` for each keyword, in sorted key order. */
  function KwParts(kwargs: seq<(string, string)>, sortedKeys: seq<string>): (parts: seq<string>)
    ensures |parts| == |sortedKeys|
  {
    if sortedKeys == [] then []
    else [sortedKeys[0] + "=" + KwValue(kwargs, sortedKeys[0])] + KwParts(kwargs, sortedKeys[1..])
  }

  /** The parts joined into a key: prefix, module, function name, positional arguments, keywords. */
  function KeyParts(prefix: string, moduleName: string, name: string, args: seq<string>, kwargs: seq<(string, string)>)
    : seq<string>
  {
    [prefix, moduleName, name] + args + KwParts(kwargs, SortAsc(KwKeys(kwargs)))
  }

  /**
   * `_generate_cache_key` with arguments already rendered by `str`, keywords as
   * (name, value) pairs in call order with distinct names: the parts joined by
   * ':', or the digest of that string when it exceeds 250 characters.
   */
  function GenerateCacheKey(prefix: string, moduleName: string, name: string, args: seq<string>,
                            kwargs: seq<(string, string)>, md5: string -> Digest): (key: string)
    ensures |key| <= MAX_KEY_LENGTH
    ensures var joined := Join(KeyParts(prefix, moduleName, name, args, kwargs), ':');
      (|joined| <= MAX_KEY_LENGTH ==> key == joined) && (|joined| > MAX_KEY_LENGTH ==> key == md5(joined))
  {
    var key := Join(KeyParts(prefix, moduleName, name, args, kwargs), ':');
    if |key| > MAX_KEY_LENGTH then md5(key) else key
  }

  predicate DistinctKeys(kwargs: seq<(string, string)>)
  {
    forall i, j :: 0 <= i < j < |kwargs| ==> kwargs[i].0 != kwargs[j].0
  }

  lemma {:induction false} KwValueAt(kwargs: seq<(string, string)>, i: int)
    requires DistinctKeys(kwargs) && 0 <= i < |kwargs|
    ensures KwValue(kwargs, kwargs[i].0) == kwargs[i].1
    decreases |kwargs|
  {
    if i > 0 {
      KwValueAt(kwargs[1..], i - 1);
    }
  }

  /** Keyword arguments given in a different order have the same value for every name. */
  lemma KwValueOrderIndependent(a: seq<(string, string)>, b: seq<(string, string)>, k: string)
    requires DistinctKeys(a) && DistinctKeys(b) && multiset(a) == multiset(b)
    ensures KwValue(a, k) == KwValue(b, k)
  {
    if i :| 0 <= i < |a| && a[i].0 == k {
      assert a[i] in multiset(b);
      var j :| 0 <= j < |b| && b[j] == a[i];
      KwValueAt(a, i);
      KwValueAt(b, j);
    } else {
      KwValueAbsent(a, k);
      forall j | 0 <= j < |b|
        ensures b[j].0 != k
      {
        assert b[j] in multiset(a);
      }
      KwValueAbsent(b, k);
    }
  }

  lemma {:induction false} KwValueAbsent(kwargs: seq<(string, string)>, k: string)
    requires forall i :: 0 <= i < |kwargs| ==> kwargs[i].0 != k
    ensures KwValue(kwargs, k) == ""
    decreases |kwargs|
  {
    if kwargs != [] {
      KwValueAbsent(kwargs[1..], k);
    }
  }

  lemma {:induction false} KwPartsSameValues(a: seq<(string, string)>, b: seq<(string, string)>, keys: seq<string>)
    requires forall k :: KwValue(a, k) == KwValue(b, k)
    ensures KwParts(a, keys) == KwParts(b, keys)
    decreases |keys|
  {
    if keys != [] {
      KwPartsSameValues(a, b, keys[1..]);
    }
  }

  lemma {:induction false} KwKeysAppend(x: seq<(string, string)>, y: seq<(string, string)>)
    ensures KwKeys(x + y) == KwKeys(x) + KwKeys(y)
    decreases |x|
  {
    if x != [] {
      KwKeysAppend(x[1..], y);
      assert (x + y)[0] == x[0];
      assert (x + y)[1..] == x[1..] + y;
      calc {
        KwKeys(x + y);
        [x[0].0] + KwKeys(x[1..] + y);
        [x[0].0] + (KwKeys(x[1..]) + KwKeys(y));
        ([x[0].0] + KwKeys(x[1..])) + KwKeys(y);
      }
    } else {
      assert x + y == y;
    }
  }

  lemma MultisetTail<T>(s: seq<T>)
    requires s != []
    ensures multiset(s[1..]) == multiset(s) - multiset{s[0]}
  {
    assert s == [s[0]] + s[1..];
  }

  lemma KwKeysAppendMultiset(x: seq<(string, string)>, y: seq<(string, string)>)
    ensures multiset(KwKeys(x + y)) == multiset(KwKeys(x)) + multiset(KwKeys(y))
  {
    KwKeysAppend(x, y);
  }

  lemma SplitAt<T>(b: seq<T>, j: int)
    requires 0 <= j < |b|
    ensures b == (b[..j] + [b[j]]) + b[j + 1..]
  {
  }

  lemma KwKeysRemoveAt(b: seq<(string, string)>, j: int)
    requires 0 <= j < |b|
    ensures multiset(KwKeys(b)) == multiset{b[j].0} + multiset(KwKeys(b[..j] + b[j + 1..]))
  {
    var left, right := b[..j], b[j + 1..];
    SplitAt(b, j);
    KwKeysAppendMultiset(left + [b[j]], right);
    KwKeysAppendMultiset(left, [b[j]]);
    KwKeysAppendMultiset(left, right);
    assert KwKeys([b[j]]) == [b[j].0];
  }

  /** Permuted pairs have permuted keys. */
  lemma {:induction false} KwKeysPermutation(a: seq<(string, string)>, b: seq<(string, string)>)
    requires multiset(a) == multiset(b)
    ensures multiset(KwKeys(a)) == multiset(KwKeys(b))
    decreases |a|
  {
    if a == [] {
      assert |b| == |multiset(b)| == 0;
    } else {
      assert a[0] in multiset(b);
      var j :| 0 <= j < |b| && b[j] == a[0];
      var b' := b[..j] + b[j + 1..];
      MultisetRemoveAt(b, j);
      MultisetTail(a);
      KwKeysPermutation(a[1..], b');
      KwKeysRemoveAt(b, j);
      KwKeysRemoveAt(a, 0);
      assert a[..0] + a[1..] == a[1..];
    }
  }

  /**
   * The key does not depend on the order in which keyword arguments were
   * given: keywords enter the key in sorted order.
   */
  lemma CacheKeyKeywordOrderIndependent(prefix: string, moduleName: string, name: string, args: seq<string>,
                                        a: seq<(string, string)>, b: seq<(string, string)>, md5: string -> Digest)
    requires DistinctKeys(a) && DistinctKeys(b) && multiset(a) == multiset(b)
    ensures GenerateCacheKey(prefix, moduleName, name, args, a, md5) == GenerateCacheKey(prefix, moduleName, name, args, b, md5)
  {
    KwKeysPermutation(a, b);
    SortAscOrderIndependent(KwKeys(a), KwKeys(b));
    forall k
      ensures KwValue(a, k) == KwValue(b, k)
    {
      KwValueOrderIndependent(a, b, k);
    }
    KwPartsSameValues(a, b, SortAsc(KwKeys(a)));
    assert KeyParts(prefix, moduleName, name, args, a) == KeyParts(prefix, moduleName, name, args, b);
  }

  /**
   * Short keys do not collide: when no part of either call contains ':' and
   * both joined keys fit in 250 characters, equal cache keys come from calls
   * with equal parts.
   */
  lemma ShortKeysDistinguishCalls(prefix: string, moduleName: string, name: string, args1: seq<string>,
                                  kwargs1: seq<(string, string)>, args2: seq<string>,
                                  kwargs2: seq<(string, string)>, md5: string -> Digest)
    requires var p1 := KeyParts(prefix, moduleName, name, args1, kwargs1);
      forall k :: 0 <= k < |p1| ==> Free(p1[k], ':')
    requires var p2 := KeyParts(prefix, moduleName, name, args2, kwargs2);
      forall k :: 0 <= k < |p2| ==> Free(p2[k], ':')
    requires |Join(KeyParts(prefix, moduleName, name, args1, kwargs1), ':')| <= MAX_KEY_LENGTH
    requires |Join(KeyParts(prefix, moduleName, name, args2, kwargs2), ':')| <= MAX_KEY_LENGTH
    requires GenerateCacheKey(prefix, moduleName, name, args1, kwargs1, md5)
          == GenerateCacheKey(prefix, moduleName, name, args2, kwargs2, md5)
    ensures KeyParts(prefix, moduleName, name, args1, kwargs1) == KeyParts(prefix, moduleName, name, args2, kwargs2)
  {
    SplitJoin(KeyParts(prefix, moduleName, name, args1, kwargs1), ':');
    SplitJoin(KeyParts(prefix, moduleName, name, args2, kwargs2), ':');
  }

  // ---------------------------------------------------------------------------
  // Backend choice
  // ---------------------------------------------------------------------------

  datatype Backend = Redis | InMemory

  /**
   * `_initialize_cache`: Redis only when its client library is available and
   * its self-test (store 'test', read it back) returned 'test'; `probe` is the
   * value read back, or `None` when the client raised.
   */
  function ChooseBackend(redisAvailable: bool, probe: Option<string>): (b: Backend)
    ensures b == Redis <==> redisAvailable && probe == Some("test")
  {
    if redisAvailable && probe.Some? && probe.value == "test" then Redis else InMemory
  }
}
