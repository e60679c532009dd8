/** The bounded TTL cache of tftpos/cache.py: the mutable object with its counters, and what holds of
    every run of cache operations. Clocks are read under the cache lock, so they never go back. */
module Cache {
  import opened Common

  datatype Counters = Counters(hits: nat, misses: nat, evictions: nat)

  /** A cached value may be Python's None, so values are options. */
  datatype Entry<T> = Entry(time: real, value: Option<T>)

  type Entries<K, T> = map<K, Entry<T>>

  datatype State<K, T> = State(entries: Entries<K, T>, counters: Counters)

  ghost predicate Oldest<K, T>(m: Entries<K, T>, k: K) {
    k in m && forall l | l in m :: m[k].time <= m[l].time
  }

  predicate Live<K, T>(m: Entries<K, T>, key: K, now: real, ttl: real) {
    key in m && now - m[key].time <= ttl
  }

  // ---------- One operation ----------

  datatype Op<K, T> =
    | Get(now: real, key: K)
    | Put(now: real, key: K, value: Option<T>)
    | Invalidate(now: real, key: K)
    | InvalidateMatching(now: real, matching: set<K>)
    | Clear(now: real)

  function Missed(c: Counters, evicted: nat): Counters {
    c.(misses := c.misses + 1, evictions := c.evictions + evicted)
  }

  function Evicted(c: Counters, n: nat): Counters {
    c.(evictions := c.evictions + n)
  }

  function Looked<K, T>(s: State<K, T>, key: K, now: real, ttl: real): State<K, T> {
    if key !in s.entries then s.(counters := Missed(s.counters, 0))
    else if !Live(s.entries, key, now, ttl) then State(s.entries - {key}, Missed(s.counters, 1))
    else s.(counters := s.counters.(hits := s.counters.hits + 1))
  }

  /** `put` raises when it has to evict from an empty cache, and then changes nothing. */
  predicate Raises<K, T>(m: Entries<K, T>, key: K, maxsize: int) {
    key !in m && |m| >= maxsize && |m| == 0
  }

  ghost predicate Stored<K, T>(s: State<K, T>, key: K, value: Option<T>, now: real, maxsize: int, s': State<K, T>) {
    if Raises(s.entries, key, maxsize) then s' == s
    else if key !in s.entries && |s.entries| >= maxsize then
      exists victim <- s.entries :: Oldest(s.entries, victim) && s' == Replaced(s, victim, key, value, now)
    else s' == s.(entries := s.entries[key := Entry(now, value)])
  }

  function Replaced<K, T>(s: State<K, T>, victim: K, key: K, value: Option<T>, now: real): State<K, T> {
    State((s.entries - {victim})[key := Entry(now, value)], Evicted(s.counters, 1))
  }

  function Dropped<K, T>(s: State<K, T>, keys: set<K>): State<K, T> {
    State(s.entries - keys, Evicted(s.counters, |keys * s.entries.Keys|))
  }

  ghost predicate Step<K, T>(maxsize: int, ttl: real, s: State<K, T>, op: Op<K, T>, s': State<K, T>) {
    match op
    case Get(now, key) => s' == Looked(s, key, now, ttl)
    case Put(now, key, value) => Stored(s, key, value, now, maxsize, s')
    case Invalidate(_, key) => s' == Dropped(s, {key})
    case InvalidateMatching(_, matching) => s' == Dropped(s, matching)
    case Clear(_) => s' == s.(entries := map[])
  }

  lemma SizeAfterDrop<K, V>(m: map<K, V>, keys: set<K>)
    ensures |m - keys| == |m| - |keys * m.Keys|
  {
    assert (m - keys).Keys == m.Keys - keys;
    assert m.Keys - keys == m.Keys - keys * m.Keys;
  }

  lemma WithoutOneMore<K, V>(m: map<K, V>, keys: set<K>, rest: set<K>, key: K)
    requires rest <= keys && key in rest
    ensures (m - (keys - rest)) - {key} == m - (keys - (rest - {key}))
  {
    assert keys - (rest - {key}) == (keys - rest) + {key};
  }

  // ---------- The object ----------

  class CacheStats {
    var hits: nat
    var misses: nat
    var evictions: nat

    constructor ()
      ensures Value() == Counters(0, 0, 0)
    {
      hits, misses, evictions := 0, 0, 0;
    }

    ghost function Value(): Counters
      reads this
    {
      Counters(hits, misses, evictions)
    }

    method Hit()
      modifies this
      ensures Value() == old(Value()).(hits := old(hits) + 1)
    {
      hits := hits + 1;
    }

    method Miss()
      modifies this
      ensures Value() == old(Value()).(misses := old(misses) + 1)
    {
      misses := misses + 1;
    }

    method Eviction()
      modifies this
      ensures Value() == old(Value()).(evictions := old(evictions) + 1)
    {
      evictions := evictions + 1;
    }
  }

  /** What an operation added to a cache's counters it also added to the global ones. */
  ghost predicate SameGrowth(c: Counters, c': Counters, g: Counters, g': Counters) {
    && c'.hits - c.hits == g'.hits - g.hits
    && c'.misses - c.misses == g'.misses - g.misses
    && c'.evictions - c.evictions == g'.evictions - g.evictions
  }

  class TTLCacheWrapper<K(==), T(==)> {
    const maxsize: int
    const ttl: real
    const stats: CacheStats
    const globalStats: CacheStats
    var cache: Entries<K, T>

    ghost predicate Valid()
      reads this
    {
      stats != globalStats && |cache| <= (if maxsize > 0 then maxsize else 0)
    }

    ghost function View(): State<K, T>
      reads this, stats
    {
      State(cache, stats.Value())
    }

    constructor (maxsize: int, ttl: real, globalStats: CacheStats)
      ensures Valid() && View() == State(map[], Counters(0, 0, 0))
      ensures this.maxsize == maxsize && this.ttl == ttl && this.globalStats == globalStats && fresh(stats)
    {
      this.maxsize, this.ttl, this.globalStats := maxsize, ttl, globalStats;
      cache := map[];
      stats := new CacheStats();
    }

    method Get(key: K, now: real) returns (value: Option<T>)
      requires Valid()
      modifies this, stats, globalStats
      ensures Valid() && Step(maxsize, ttl, old(View()), Op.Get(now, key), View())
      ensures SameGrowth(old(stats.Value()), stats.Value(), old(globalStats.Value()), globalStats.Value())
      ensures var answered := key in old(cache) && now - old(cache)[key].time <= ttl;
              && value == (if answered then old(cache)[key].value else None)
              && cache == (if answered || key !in old(cache) then old(cache) else old(cache) - {key})
              && stats.hits == old(stats.hits) + (if answered then 1 else 0)
              && stats.misses == old(stats.misses) + (if answered then 0 else 1)
    {
      if key !in cache {
        stats.Miss();
        globalStats.Miss();
        return None;
      }
      var entry := cache[key];
      if now - entry.time > ttl {
        cache := cache - {key};
        stats.Eviction();
        stats.Miss();
        globalStats.Eviction();
        globalStats.Miss();
        return None;
      }
      stats.Hit();
      globalStats.Hit();
      return entry.value;
    }

    /** The key with the least timestamp. */
    method OldestKey() returns (oldest: K)
      requires cache != map[]
      ensures Oldest(cache, oldest)
    {
      var rest := cache.Keys;
      oldest :| oldest in rest;
      rest := rest - {oldest};
      while rest != {}
        invariant oldest in cache && rest <= cache.Keys
        invariant forall l | l in cache && l !in rest :: cache[oldest].time <= cache[l].time
      {
        var l :| l in rest;
        if cache[l].time < cache[oldest].time {
          oldest := l;
        }
        rest := rest - {l};
      }
    }

    method Put(key: K, value: Option<T>, now: real) returns (raised: bool)
      requires Valid()
      modifies this, stats, globalStats
      ensures Valid() && Step(maxsize, ttl, old(View()), Op.Put(now, key, value), View())
      ensures SameGrowth(old(stats.Value()), stats.Value(), old(globalStats.Value()), globalStats.Value())
      ensures raised <==> maxsize <= 0
      ensures !raised ==> key in cache && cache[key] == Entry(now, value)
      ensures !raised && (key in old(cache) || |old(cache)| < maxsize) ==>
                cache == old(cache)[key := Entry(now, value)] && stats.evictions == old(stats.evictions)
    {
      ghost var before := View();
      if |cache| >= maxsize && key !in cache {
        if |cache| == 0 {
          return true;
        }
        var oldestKey := OldestKey();
        cache := cache - {oldestKey};
        stats.Eviction();
        globalStats.Eviction();
        cache := cache[key := Entry(now, value)];
        assert View() == Replaced(before, oldestKey, key, value, now);
        return false;
      }
      cache := cache[key := Entry(now, value)];
      return false;
    }

    method Invalidate(key: K, now: real) returns (removed: bool)
      requires Valid()
      modifies this, stats, globalStats
      ensures Valid() && Step(maxsize, ttl, old(View()), Op.Invalidate(now, key), View())
      ensures SameGrowth(old(stats.Value()), stats.Value(), old(globalStats.Value()), globalStats.Value())
      ensures removed <==> key in old(cache)
      ensures cache == old(cache) - {key}
      ensures stats.evictions == old(stats.evictions) + (if key in old(cache) then 1 else 0)
    {
      removed := key in cache;
      if removed {
        assert {key} * cache.Keys == {key};
        cache := cache - {key};
        stats.Eviction();
        globalStats.Eviction();
      } else {
        assert {key} * cache.Keys == {};
        assert cache - {key} == cache;
      }
    }

    method InvalidateMatching(predicate_: K -> bool, now: real) returns (removed: nat)
      requires Valid()
      modifies this, stats, globalStats
      ensures Valid()
      ensures var matching := set k | k in old(cache) && predicate_(k);
              Step(maxsize, ttl, old(View()), Op.InvalidateMatching(now, matching), View()) && removed == |matching|
      ensures forall k :: k in cache <==> k in old(cache) && !predicate_(k)
      ensures forall k | k in cache :: cache[k] == old(cache)[k]
      ensures removed == |old(cache)| - |cache| && stats.evictions == old(stats.evictions) + removed
      ensures SameGrowth(old(stats.Value()), stats.Value(), old(globalStats.Value()), globalStats.Value())
    {
      var toRemove := set k | k in cache && predicate_(k);
      assert toRemove * cache.Keys == toRemove;
      SizeAfterDrop(cache, toRemove);
      removed := Drop(toRemove);
    }

    /** The loop that drops the keys one by one. */
    method Drop(keys: set<K>) returns (removed: nat)
      requires Valid() && keys <= cache.Keys
      modifies this, stats, globalStats
      ensures Valid() && cache == old(cache) - keys && removed == |keys|
      ensures stats.Value() == Evicted(old(stats.Value()), removed)
      ensures globalStats.Value() == Evicted(old(globalStats.Value()), removed)
    {
      removed := 0;
      var toRemove := keys;
      ghost var before := cache;
      while toRemove != {}
        invariant toRemove <= keys
        invariant cache == before - (keys - toRemove)
        invariant removed == |keys| - |toRemove|
        invariant stats.Value() == Evicted(old(stats.Value()), removed)
        invariant globalStats.Value() == Evicted(old(globalStats.Value()), removed)
      {
        var key :| key in toRemove;
        WithoutOneMore(before, keys, toRemove, key);
        DropOne(key);
        toRemove := toRemove - {key};
        removed := removed + 1;
      }
      assert keys - {} == keys;
      SizeAfterDrop(before, keys);
    }

    method DropOne(key: K)
      requires stats != globalStats
      modifies this`cache, stats, globalStats
      ensures cache == old(cache) - {key}
      ensures stats.Value() == Evicted(old(stats.Value()), 1)
      ensures globalStats.Value() == Evicted(old(globalStats.Value()), 1)
    {
      cache := cache - {key};
      stats.Eviction();
      globalStats.Eviction();
    }

    method Clear(now: real)
      requires Valid()
      modifies this
      ensures Valid() && Step(maxsize, ttl, old(View()), Op.Clear(now), View()) && cache == map[]
    {
      cache := map[];
    }
  }
}
