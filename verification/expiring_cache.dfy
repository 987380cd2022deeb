/**
 * A TTL cache with lazy expiry: every entry carries the instant after which it
 * is stale; nothing sweeps the map, a read that finds a stale entry removes it.
 * Values are `Option<V>`, where None stands for a cached Java null.
 *
 * The clock is the `now` argument (nanoseconds of a monotonic clock). A loader
 * or supplier is a function returning the value it produces or the exception
 * it throws.
 */
module Caching {
  import opened Failures
  import opened JavaLang

  /** A cached value and its expiry instant. */
  datatype Entry<V> = Entry(v: Option<V>, exp: int)

  /** An entry is still fresh at its expiry instant and stale strictly after it. */
  predicate IsFresh<V>(e: Entry<V>, now: int) {
    now <= e.exp
  }

  /** What a read of `key` at `now` is served: the cached value, when a fresh entry is present. */
  function FreshValue<K, V>(m: map<K, Entry<V>>, key: K, now: int): Option<Option<V>> {
    if key in m && IsFresh(m[key], now) then Some(m[key].v) else None
  }

  /** The map after get(key) at `now`: a stale entry under `key` is dropped, and nothing else changes. */
  function Expire<K, V>(m: map<K, Entry<V>>, key: K, now: int): (r: map<K, Entry<V>>)
    ensures r.Keys <= m.Keys
    ensures forall k :: k in r ==> r[k] == m[k]
    ensures forall k :: k in m && k !in r ==> k == key && !IsFresh(m[k], now)
    ensures key in m && !IsFresh(m[key], now) ==> key !in r
  {
    if key in m && !IsFresh(m[key], now) then m - {key} else m
  }

  // ---------------------------------------------------------------------------
  // A reference model: the cache serves the latest write of a key
  // ---------------------------------------------------------------------------

  /** One state change of the cache, as the methods of ExpiringCache perform them. */
  datatype Op<K, V> =
    | Write(key: K, value: Option<V>, at: int)   // put at `at`, or a value loaded by a miss at `at`
    | Read(key: K, at: int)                      // get(key) at `at`
    | Invalidate(key: K)
    | InvalidateAll

  function Apply<K, V>(ttl: int, m: map<K, Entry<V>>, op: Op<K, V>): map<K, Entry<V>> {
    match op
    case Write(k, v, t) => m[k := Entry(v, t + ttl)]
    case Read(k, t) => Expire(m, k, t)
    case Invalidate(k) => m - {k}
    case InvalidateAll => map[]
  }

  /** The map after running `ops` on an empty cache. */
  function Replay<K, V>(ttl: int, ops: seq<Op<K, V>>): map<K, Entry<V>> {
    if ops == [] then map[] else Apply(ttl, Replay(ttl, ops[..|ops| - 1]), ops[|ops| - 1])
  }

  /** The entry installed by the latest write of `key` that no invalidation has undone since. */
  function LastWrite<K(==), V>(ttl: int, ops: seq<Op<K, V>>, key: K): Option<Entry<V>> {
    if ops == [] then None
    else
      match ops[|ops| - 1]
      case Write(k, v, t) => if k == key then Some(Entry(v, t + ttl)) else LastWrite(ttl, ops[..|ops| - 1], key)
      case Invalidate(k) => if k == key then None else LastWrite(ttl, ops[..|ops| - 1], key)
      case InvalidateAll => None
      case Read(_, _) => LastWrite(ttl, ops[..|ops| - 1], key)
  }

  /** What the reference model serves at `now`: the latest write, while it is fresh. */
  function Served<V>(last: Option<Entry<V>>, now: int): Option<Option<V>> {
    match last
    case Some(e) => if IsFresh(e, now) then Some(e.v) else None
    case None => None
  }

  /**
   * Lazy expiry is invisible: as long as no read in the history happened after
   * `now`, a read at `now` is served exactly the latest write of the key while it
   * is fresh, whatever reads removed stale entries and whatever was done to
   * other keys in between.
   */
  lemma {:induction false} ReplayServesLastWrite<K, V>(ttl: int, ops: seq<Op<K, V>>, key: K, now: int)
    requires forall i :: 0 <= i < |ops| && ops[i].Read? ==> ops[i].at <= now
    ensures FreshValue(Replay(ttl, ops), key, now) == Served(LastWrite(ttl, ops, key), now)
  {
    if ops != [] {
      var pre, op := ops[..|ops| - 1], ops[|ops| - 1];
      forall i | 0 <= i < |pre| && pre[i].Read?
        ensures pre[i].at <= now
      {
        assert pre[i] == ops[i];
      }
      ReplayServesLastWrite(ttl, pre, key, now);
      if op.Read? {
        assert op.at <= now;
      }
    }
  }

  class ExpiringCache<K(==), V> {
    /** The time to live of every entry, at least one nanosecond. */
    const ttlNanos: int
    var entries: map<K, Entry<V>>

    ghost predicate Valid()
      reads this
    {
      ttlNanos >= 1
    }

    /** An empty cache whose TTL is `ttl` nanoseconds, floored to 1. */
    constructor (ttl: int)
      ensures Valid()
      ensures ttlNanos == Max(1, ttl) && ttlNanos >= ttl
      ensures entries == map[]
    {
      ttlNanos := Max(1, ttl);
      entries := map[];
    }

    /**
     * get(key): the cached value if a fresh entry is present (a cached null reads
     * as empty), else empty; a stale entry found is removed.
     */
    method Get(key: K, now: int) returns (r: Option<V>)
      modifies this
      ensures key !in old(entries) ==> r == None
      ensures r == FreshValue(old(entries), key, now).GetOr(None)
      ensures entries == Expire(old(entries), key, now)
      ensures entries == Apply(ttlNanos, old(entries), Read(key, now))
    {
      if key !in entries {
        return None;
      }
      var e := entries[key];
      if now > e.exp {
        entries := entries - {key};
        return None;
      }
      return e.v;
    }

    /**
     * get(key, loader): a fresh hit is returned as it is (null included) without
     * calling the loader; otherwise the loader is called once with the key and
     * what it returns is installed to expire at `now + ttl`, `now` being read
     * before loading. A loader that throws leaves the map as it was.
     */
    method GetOrLoad(key: K, now: int, loader: K -> Result<Option<V>>) returns (r: Result<Option<V>>, calls: seq<K>)
      requires Valid()
      modifies this
      ensures FreshValue(old(entries), key, now).Some? ==>
                calls == [] && r == Ok(FreshValue(old(entries), key, now).value) && entries == old(entries)
      ensures FreshValue(old(entries), key, now).None? ==> calls == [key] && r == loader(key)
      ensures FreshValue(old(entries), key, now).None? && r.Ok? ==>
                entries == old(entries)[key := Entry(r.value, now + ttlNanos)] &&
                entries == Apply(ttlNanos, old(entries), Write(key, r.value, now))
      ensures r.Err? ==> entries == old(entries)
      ensures r.Ok? ==> FreshValue(entries, key, now) == Some(r.value)
    {
      if key in entries && now <= entries[key].exp {
        return Ok(entries[key].v), [];
      }
      calls := [key];
      r := loader(key);
      if r.Ok? {
        entries := entries[key := Entry(r.value, now + ttlNanos)];
      }
    }

    /** getOrCompute(key, supplier): get(key, loader) with a loader that ignores the key; `calls` counts supplier calls. */
    method GetOrCompute(key: K, now: int, supplier: () -> Result<Option<V>>) returns (r: Result<Option<V>>, calls: nat)
      requires Valid()
      modifies this
      ensures FreshValue(old(entries), key, now).Some? ==>
                calls == 0 && r == Ok(FreshValue(old(entries), key, now).value) && entries == old(entries)
      ensures FreshValue(old(entries), key, now).None? ==> calls == 1 && r == supplier()
      ensures FreshValue(old(entries), key, now).None? && r.Ok? ==>
                entries == old(entries)[key := Entry(r.value, now + ttlNanos)] &&
                entries == Apply(ttlNanos, old(entries), Write(key, r.value, now))
      ensures r.Err? ==> entries == old(entries)
      ensures r.Ok? ==> FreshValue(entries, key, now) == Some(r.value)
    {
      if key in entries && now <= entries[key].exp {
        return Ok(entries[key].v), 0;
      }
      calls := 1;
      r := supplier();
      if r.Ok? {
        entries := entries[key := Entry(r.value, now + ttlNanos)];
      }
    }

    /** put(key, value): installs the value, replacing any entry, to expire at `now + ttl`. */
    method Put(key: K, value: Option<V>, now: int)
      requires Valid()
      modifies this
      ensures entries == old(entries)[key := Entry(value, now + ttlNanos)]
      ensures entries == Apply(ttlNanos, old(entries), Write(key, value, now))
      ensures FreshValue(entries, key, now) == Some(value)
    {
      var exp := now + ttlNanos;
      entries := entries[key := Entry(value, exp)];
    }

    /** invalidate(key): removes the entry under `key` only. */
    method Invalidate(key: K)
      modifies this
      ensures entries == old(entries) - {key}
      ensures entries == Apply(ttlNanos, old(entries), Op.Invalidate(key))
    {
      entries := entries - {key};
    }

    /** invalidateAll(): empties the cache. */
    method InvalidateAll()
      modifies this
      ensures entries == map[]
    {
      entries := map[];
    }
  }

  /** A value put at `now` is served by every read up to and including `now + ttl`, and by none after. */
  lemma PutServedUntilExpiry<K, V>(m: map<K, Entry<V>>, key: K, value: Option<V>, now: int, ttl: int, t: int)
    ensures FreshValue(m[key := Entry(value, now + ttl)], key, t) == (if t <= now + ttl then Some(value) else None)
  {
  }
}
