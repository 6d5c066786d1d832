/** The in-memory TTL cache for read-heavy endpoints, the `cached`
    wrapper around a computation, and `invalidate_cache`. Time is an
    integer clock passed in by the caller. */
module Cache {
  import opened Common

  /** A cached value and the time it stops being served. */
  datatype Entry<V> = Entry(value: V, expiresAt: int)

  /** What `get` returns: the stored value while the cache is on and the
      entry has not expired. */
  function Fetch<V>(entries: map<string, Entry<V>>, enabled: bool, key: string, now: int): (r: Option<V>)
    ensures r.Some? ==> enabled && key in entries && now < entries[key].expiresAt && r.value == entries[key].value
  {
    if enabled && key in entries && now < entries[key].expiresAt then Some(entries[key].value) else None
  }

  /** The entries after `get`: an expired entry it looked at is gone. */
  function AfterFetch<V>(entries: map<string, Entry<V>>, enabled: bool, key: string, now: int): (r: map<string, Entry<V>>)
    ensures r.Keys <= entries.Keys && forall k :: k in r ==> r[k] == entries[k]
    ensures forall k :: k in entries && k != key ==> k in r
  {
    if enabled && key in entries && !(now < entries[key].expiresAt) then entries - {key} else entries
  }

  /** The entries after `set`: nothing while the cache is off; otherwise
      the key holds the value until `now + ttl`, replacing what it held. */
  function Stored<V>(entries: map<string, Entry<V>>, enabled: bool, key: string, value: V,
                     ttlSeconds: int, now: int): (r: map<string, Entry<V>>)
    ensures forall k :: k != key ==> (k in r <==> k in entries) && (k in r ==> r[k] == entries[k])
    ensures enabled ==> key in r && r[key].value == value && r[key].expiresAt == now + ttlSeconds
    ensures !enabled ==> r == entries
  {
    if enabled then entries[key := Entry(value, now + ttlSeconds)] else entries
  }

  /** The entries after `invalidate_pattern`. */
  function WithoutPattern<V>(entries: map<string, Entry<V>>, pattern: string): (r: map<string, Entry<V>>)
    ensures r.Keys <= entries.Keys
    ensures forall k :: k in r ==> r[k] == entries[k] && !Contains(k, pattern)
  {
    map k | k in entries && !Contains(k, pattern) :: entries[k]
  }

  /** `get` serves a value exactly when the cache is on and holds an
      unexpired entry for the key, and serves that entry's value; it
      removes the key's entry exactly when that entry has expired. */
  lemma FetchServesFresh<V>(entries: map<string, Entry<V>>, enabled: bool, key: string, now: int)
    ensures Fetch(entries, enabled, key, now).Some? <==>
              enabled && key in entries && now < entries[key].expiresAt
    ensures !enabled ==> AfterFetch(entries, enabled, key, now) == entries
    ensures var after := AfterFetch(entries, enabled, key, now);
      key in entries && key !in after <==> enabled && key in entries && now >= entries[key].expiresAt
  {
  }

  /** A value set while the cache is on is served for exactly `ttl`
      seconds and leaves every other key as it was; a value set while it
      is off is never served. */
  lemma SetThenFetch<V>(entries: map<string, Entry<V>>, enabled: bool, key: string, value: V,
                        ttlSeconds: int, setAt: int, now: int)
    ensures var after := Stored(entries, enabled, key, value, ttlSeconds, setAt);
      && (enabled ==> (Fetch(after, enabled, key, now) == Some(value) <==> now < setAt + ttlSeconds))
      && (!enabled ==> Fetch(after, enabled, key, now) == None)
      && (forall k :: k != key ==> Fetch(after, enabled, k, now) == Fetch(entries, enabled, k, now))
  {
  }

  /** Pattern invalidation removes exactly the keys that contain the
      pattern, and an empty pattern matches every key. */
  lemma WithoutPatternExact<V>(entries: map<string, Entry<V>>, pattern: string)
    ensures var r := WithoutPattern(entries, pattern);
      forall k :: k in entries ==> (k in r <==> !Contains(k, pattern))
    ensures pattern == "" ==> WithoutPattern(entries, pattern) == map[]
  {
    if pattern == "" {
      forall k | k in entries
        ensures Contains(k, pattern)
      {
        assert StartsWith(k, pattern);
      }
    }
  }

  class SimpleCache<V> {
    var entries: map<string, Entry<V>>
    var enabled: bool

    constructor ()
      ensures entries == map[] && enabled
    {
      entries := map[];
      enabled := true;
    }

    /** `get`. */
    method Get(key: string, now: int) returns (r: Option<V>)
      modifies this
      ensures r == Fetch(old(entries), old(enabled), key, now)
      ensures entries == AfterFetch(old(entries), old(enabled), key, now) && enabled == old(enabled)
    {
      if !enabled {
        return None;
      }
      if key in entries {
        var entry := entries[key];
        if now < entry.expiresAt {
          return Some(entry.value);
        } else {
          entries := entries - {key};
        }
      }
      return None;
    }

    /** `set`. */
    method Set(key: string, value: V, ttlSeconds: int, now: int)
      modifies this
      ensures entries == Stored(old(entries), old(enabled), key, value, ttlSeconds, now) && enabled == old(enabled)
    {
      if !enabled {
        return;
      }
      entries := entries[key := Entry(value, now + ttlSeconds)];
    }

    /** `invalidate`: only the given key goes. */
    method Invalidate(key: string)
      modifies this
      ensures entries == old(entries) - {key} && enabled == old(enabled)
    {
      if key in entries {
        entries := entries - {key};
      }
    }

    /** `invalidate_pattern`: collect the keys containing the pattern, then
        delete them one by one. */
    method InvalidatePattern(pattern: string)
      modifies this
      ensures entries == WithoutPattern(old(entries), pattern) && enabled == old(enabled)
    {
      var keysToDelete := set k | k in entries && Contains(k, pattern);
      while keysToDelete != {}
        invariant keysToDelete <= entries.Keys <= old(entries).Keys
        invariant forall k :: k in entries ==> entries[k] == old(entries)[k]
        invariant forall k :: k in old(entries) ==> (k in entries <==> k in keysToDelete || !Contains(k, pattern))
        invariant enabled == old(enabled)
        decreases keysToDelete
      {
        var k :| k in keysToDelete;
        entries := entries - {k};
        keysToDelete := keysToDelete - {k};
      }
    }

    method Clear()
      modifies this
      ensures entries == map[] && enabled == old(enabled)
    {
      entries := map[];
    }

    /** `enable` turns the cache on and brings nothing back. */
    method Enable()
      modifies this
      ensures enabled && entries == old(entries)
    {
      enabled := true;
    }

    /** `disable` turns the cache off and empties it. */
    method Disable()
      modifies this
      ensures !enabled && entries == map[]
    {
      enabled := false;
      Clear();
    }
  }

  /** The `cached` wrapper for one call: the key stands for the md5 of the
      call's name and arguments, and `computed` for what the wrapped
      function returns when it runs. A cached result is served only when
      it is not None; otherwise the function's result is returned and
      cached for `ttl` seconds. */
  method Cached<T>(cache: SimpleCache<Option<T>>, key: string, computed: Option<T>, ttlSeconds: int, now: int)
    returns (result: Option<T>)
    modifies cache
    ensures var hit := Fetch(old(cache.entries), old(cache.enabled), key, now);
      && (hit.Some? && hit.value.Some? ==> result == hit.value && cache.entries == old(cache.entries))
      && (!(hit.Some? && hit.value.Some?) ==>
            result == computed
            && cache.entries == Stored(AfterFetch(old(cache.entries), old(cache.enabled), key, now),
                                       old(cache.enabled), key, computed, ttlSeconds, now))
    ensures cache.enabled == old(cache.enabled)
  {
    var cachedValue := cache.Get(key, now);
    if cachedValue.Some? && cachedValue.value.Some? {
      return cachedValue.value;
    }
    result := computed;
    cache.Set(key, result, ttlSeconds, now);
  }

  /** A cached None is never served: the wrapper runs the function again. */
  lemma NoneIsRecomputed<T>(entries: map<string, Entry<Option<T>>>, enabled: bool, key: string, now: int)
    requires key in entries && entries[key].value.None?
    ensures var hit := Fetch(entries, enabled, key, now); !(hit.Some? && hit.value.Some?)
  {
  }

  /** `invalidate_cache`: everything for an empty pattern, else the keys
      containing it. */
  method InvalidateCache<V>(cache: SimpleCache<V>, pattern: string)
    modifies cache
    ensures cache.entries == WithoutPattern(old(cache.entries), pattern)
    ensures pattern == "" ==> cache.entries == map[]
    ensures cache.enabled == old(cache.enabled)
  {
    WithoutPatternExact(cache.entries, pattern);
    if pattern != "" {
      cache.InvalidatePattern(pattern);
    } else {
      cache.Clear();
    }
  }
}
