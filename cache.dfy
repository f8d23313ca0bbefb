/**
 * The in-memory TTL cache of lib/cache/index.ts.
 *
 * Entries are keyed by string and carry the instant (in milliseconds) after
 * which they are stale. A stale entry is dropped lazily by the `get` that finds
 * it, or by an explicit `cleanup` sweep. The clock is the `now` parameter.
 */
module Cache {
  import opened Options

  /** Time-to-live the application's cache uses when none is given: one hour. */
  const DefaultTtlMs := 3600000

  datatype Entry<T> = Entry(data: T, expiresAt: int)

  /** The value `get` answers and the table it leaves behind. */
  datatype Lookup<T> = Lookup(value: Option<T>, cache: map<string, Entry<T>>)

  /** An entry is stale once `now` is strictly past its expiry. */
  predicate Expired<T>(e: Entry<T>, now: int) {
    now > e.expiresAt
  }

  /** `ttl || defaultTTL`: an absent or zero TTL falls back to the default. */
  function EffectiveTtl(ttl: Option<int>, defaultTtl: int): (t: int)
    ensures ttl.Some? && ttl.value != 0 ==> t == ttl.value
    ensures ttl.None? || ttl.value == 0 ==> t == defaultTtl
  {
    if ttl.None? || ttl.value == 0 then defaultTtl else ttl.value
  }

  /** `get(key)` at time `now`. */
  function Read<T>(cache: map<string, Entry<T>>, key: string, now: int): (l: Lookup<T>)
    ensures key !in cache ==> l == Lookup(None, cache)
    ensures key in cache && Expired(cache[key], now) ==> l.value == None && l.cache == cache - {key}
    ensures key in cache && !Expired(cache[key], now) ==> l == Lookup(Some(cache[key].data), cache)
  {
    if key !in cache then Lookup(None, cache)
    else if Expired(cache[key], now) then Lookup(None, cache - {key})
    else Lookup(Some(cache[key].data), cache)
  }

  /** `set(key, data, ttl)` at time `now`. */
  function Write<T>(cache: map<string, Entry<T>>, key: string, data: T, ttl: Option<int>, defaultTtl: int, now: int): (c: map<string, Entry<T>>)
    ensures c.Keys == cache.Keys + {key}
    ensures c[key] == Entry(data, now + EffectiveTtl(ttl, defaultTtl))
    ensures forall k :: k in cache && k != key ==> c[k] == cache[k]
  {
    cache[key := Entry(data, now + EffectiveTtl(ttl, defaultTtl))]
  }

  /** The table after `cleanup` at time `now`: the entries that are not stale. */
  function SweepExpired<T>(cache: map<string, Entry<T>>, now: int): (swept: map<string, Entry<T>>)
    ensures swept.Keys <= cache.Keys
    ensures forall k :: k in swept ==> !Expired(swept[k], now) && swept[k] == cache[k]
  {
    map k | k in cache && !Expired(cache[k], now) :: cache[k]
  }

  /** A value just stored is found until its expiry and not after it (a
      negative TTL expires it at once); the lookup removes nothing before the
      expiry and removes only that key after it. */
  lemma SetThenGet<T>(cache: map<string, Entry<T>>, key: string, data: T, ttl: Option<int>, defaultTtl: int, now: int, later: int)
    requires now <= later
    ensures var stored := Write(cache, key, data, ttl, defaultTtl, now);
      var l := Read(stored, key, later);
      && (later <= now + EffectiveTtl(ttl, defaultTtl) ==> l == Lookup(Some(data), stored))
      && (later > now + EffectiveTtl(ttl, defaultTtl) ==> l == Lookup(None, stored - {key}))
  {
  }

  /** The last write wins: a second `set` of the same key replaces value and expiry. */
  lemma LastWriteWins<T>(cache: map<string, Entry<T>>, key: string, d1: T, t1: Option<int>, d2: T, t2: Option<int>, defaultTtl: int, now1: int, now2: int)
    ensures Write(Write(cache, key, d1, t1, defaultTtl, now1), key, d2, t2, defaultTtl, now2)
         == Write(cache, key, d2, t2, defaultTtl, now2)
  {
  }

  /** `set`, then `delete`, then `get` finds nothing. */
  lemma SetDeleteGet<T>(cache: map<string, Entry<T>>, key: string, data: T, ttl: Option<int>, defaultTtl: int, now: int, later: int)
    ensures Read(Write(cache, key, data, ttl, defaultTtl, now) - {key}, key, later).value == None
  {
  }

  /** `cleanup` cannot be observed by later reads: a `get` after a sweep at an
      earlier or equal instant answers as it would have without it. */
  lemma CleanupInvisibleToGet<T>(cache: map<string, Entry<T>>, key: string, swept: int, now: int)
    requires swept <= now
    ensures Read(SweepExpired(cache, swept), key, now).value == Read(cache, key, now).value
  {
  }

  /** A sweep keeps exactly the entries that are not stale, unchanged. */
  lemma SweepKeepsExactlyFresh<T>(cache: map<string, Entry<T>>, now: int)
    ensures forall k :: k in SweepExpired(cache, now) <==> k in cache && !Expired(cache[k], now)
    ensures forall k :: k in SweepExpired(cache, now) ==> SweepExpired(cache, now)[k] == cache[k]
  {
  }

  /** The cache object: the table is the field `cache`, changed in place by
      `get` (lazy removal), `set`, `delete`, `clear` and `cleanup`. */
  class CacheService<T> {
    var cache: map<string, Entry<T>>
    const defaultTtl: int

    constructor (defaultTtl: int := DefaultTtlMs)
      ensures this.defaultTtl == defaultTtl && cache == map[]
    {
      this.defaultTtl := defaultTtl;
      cache := map[];
    }

    method Get(key: string, now: int) returns (value: Option<T>)
      modifies this
      ensures Lookup(value, cache) == Read(old(cache), key, now)
    {
      if key !in cache {
        return None;
      }
      var entry := cache[key];
      if now > entry.expiresAt {
        cache := cache - {key};
        return None;
      }
      value := Some(entry.data);
    }

    method Set(key: string, data: T, ttl: Option<int>, now: int)
      modifies this
      ensures cache == Write(old(cache), key, data, ttl, defaultTtl, now)
    {
      var expiresAt := now + (if ttl.None? || ttl.value == 0 then defaultTtl else ttl.value);
      cache := cache[key := Entry(data, expiresAt)];
    }

    method Delete(key: string)
      modifies this
      ensures cache == old(cache) - {key}
    {
      cache := cache - {key};
    }

    method Clear()
      modifies this
      ensures cache == map[]
    {
      cache := map[];
    }

    method Cleanup(now: int)
      modifies this
      ensures cache == SweepExpired(old(cache), now)
    {
      var pending := cache.Keys;
      while pending != {}
        invariant pending <= old(cache).Keys && cache.Keys <= old(cache).Keys
        invariant forall k :: k in cache ==> cache[k] == old(cache)[k]
        invariant forall k :: k in old(cache) ==>
          (k in cache <==> k in pending || !Expired(old(cache)[k], now))
        decreases pending
      {
        var k :| k in pending;
        if now > cache[k].expiresAt {
          cache := cache - {k};
        }
        pending := pending - {k};
      }
    }
  }
}
