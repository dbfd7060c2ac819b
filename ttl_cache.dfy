/**
 * The in-process freshness cache: a string-keyed map of entries that carry
 * their data and an absolute expiry instant (milliseconds). The clock is a
 * parameter `now` of every operation that reads it.
 */
module TtlCache {
  import opened Wrappers
  import opened Text

  datatype Entry<V> = Entry(data: V, expiresAt: int)

  /**
   * What a read of `key` at `now` can see: the stored data while `now` has not
   * passed the expiry. An entry is still visible at `now == expiresAt`.
   */
  function Live<V>(m: map<string, Entry<V>>, key: string, now: int): Option<V> {
    if key in m && now <= m[key].expiresAt then Some(m[key].data) else None
  }

  /** The map after a read of `key` at `now`: an expired entry for `key` is evicted. */
  function Evicted<V>(m: map<string, Entry<V>>, key: string, now: int): map<string, Entry<V>> {
    if key in m && now > m[key].expiresAt then m - {key} else m
  }

  /** The map after invalidation: everything goes when there is no pattern or it is empty. */
  function Invalidated<V>(m: map<string, Entry<V>>, pattern: Option<string>): map<string, Entry<V>> {
    if pattern.None? || pattern.value == "" then map[]
    else map k | k in m && !Contains(k, pattern.value) :: m[k]
  }

  class Cache<V> {
    var entries: map<string, Entry<V>>

    constructor ()
      ensures entries == map[]
    {
      entries := map[];
    }

    /** `getCached(key)`. */
    method Get(key: string, now: int) returns (r: Option<V>)
      modifies this
      ensures r == Live(old(entries), key, now)
      ensures entries == Evicted(old(entries), key, now)
      ensures key !in old(entries) ==> r.None? && entries == old(entries)
      ensures key in old(entries) && now <= old(entries)[key].expiresAt ==>
        r == Some(old(entries)[key].data) && entries == old(entries)
      ensures key in old(entries) && now > old(entries)[key].expiresAt ==>
        r.None? && entries == old(entries) - {key}
    {
      if key !in entries {
        return None;
      }
      var entry := entries[key];
      if now > entry.expiresAt {
        entries := entries - {key};
        return None;
      }
      return Some(entry.data);
    }

    /** `setCache(key, data, ttlMs)`: overwrite with expiry `now + ttl`; no other key changes. */
    method Set(key: string, data: V, ttl: int, now: int)
      modifies this
      ensures entries == old(entries)[key := Entry(data, now + ttl)]
    {
      entries := entries[key := Entry(data, now + ttl)];
    }

    /**
     * `invalidateCache(pattern?)`: with no pattern (or the empty one) clear
     * everything, otherwise delete every key that contains the pattern.
     */
    method Invalidate(pattern: Option<string>)
      modifies this
      ensures entries == Invalidated(old(entries), pattern)
      ensures pattern.None? || pattern == Some("") ==> entries == map[]
      ensures pattern.Some? && pattern.value != "" ==>
        (forall k :: k in entries <==> k in old(entries) && !Contains(k, pattern.value)) &&
        (forall k :: k in entries ==> entries[k] == old(entries)[k])
    {
      if pattern.None? || pattern.value == "" {
        entries := map[];
        return;
      }
      var p := pattern.value;
      var pending := entries.Keys;
      while pending != {}
        invariant pending <= old(entries).Keys
        invariant forall k :: k in entries <==> k in old(entries) && (k in pending || !Contains(k, p))
        invariant forall k :: k in entries ==> entries[k] == old(entries)[k]
        decreases pending
      {
        var k :| k in pending;
        if Contains(k, p) {
          entries := entries - {k};
        }
        pending := pending - {k};
      }
      assert entries == Invalidated(old(entries), pattern);
    }
  }

  /**
   * A stored value is visible exactly until its expiry: at the instant of the
   * write, a non-negative ttl makes it readable, and every other key reads as before.
   */
  lemma SetThenRead<V>(m: map<string, Entry<V>>, key: string, data: V, ttl: int, now: int, k: string, t: int)
    ensures Live(m[key := Entry(data, now + ttl)], k, t) ==
      if k == key then (if t <= now + ttl then Some(data) else None) else Live(m, k, t)
    ensures ttl >= 0 ==> Live(m[key := Entry(data, now + ttl)], key, now) == Some(data)
  {
  }

  /** Lazy eviction cannot be observed: after a read at `now`, every key reads at `now` as before. */
  lemma EvictionUnobservable<V>(m: map<string, Entry<V>>, key: string, now: int, k: string)
    ensures Live(Evicted(m, key, now), k, now) == Live(m, k, now)
  {
  }

  /**
   * After invalidating with a non-empty pattern, a key remains exactly when it
   * was present and the pattern occurs nowhere in it; survivors keep data and expiry.
   */
  lemma {:induction false} InvalidatedKeys<V>(m: map<string, Entry<V>>, p: string, k: string)
    requires p != ""
    ensures k in Invalidated(m, Some(p)) <==> k in m && !(exists i :: OccursAt(k, p, i))
    ensures k in Invalidated(m, Some(p)) ==> Invalidated(m, Some(p))[k] == m[k]
  {
    ContainsIff(k, p);
  }

  /** With no pattern, or the empty pattern (falsy in JavaScript), everything is cleared. */
  lemma InvalidateAll<V>(m: map<string, Entry<V>>, k: string, t: int)
    ensures Invalidated(m, None) == map[] && Invalidated(m, Some("")) == map[]
    ensures Live(Invalidated(m, None), k, t) == None
  {
  }
}
