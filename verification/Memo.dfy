/** The memo decorator `ttl_cache` of tftpos/cache.py: one call as a method over the cache object, and
    any number of concurrent calls as a state machine whose steps are the critical sections. The
    memoised function may depend on the time at which it is evaluated. */
module Memo {
  import opened Common
  import opened Cache

  /** Every cached value is one the function gave for that key, no later than it was stored. */
  ghost predicate Sourced<K(!new), T>(m: Entries<K, T>, func: (K, real) -> Option<T>) {
    forall k | k in m :: Gave(func, k, m[k].value, m[k].time)
  }

  ghost predicate Gave<K, T>(func: (K, real) -> Option<T>, key: K, value: Option<T>, before: real) {
    exists at: real :: at <= before && func(key, at) == value
  }

  ghost predicate Pure<K, T>(func: (K, real) -> Option<T>, key: K) {
    forall t: real, u: real :: func(key, t) == func(key, u)
  }

  // ---------- The steps of a call ----------

  /** A call computed its answer at `at` and stored it at `stored`, or read one stored at `stored`. */
  datatype Answer<T> =
    | Computed(value: Option<T>, at: real, stored: real)
    | Cached(value: Option<T>, stored: real, read: real)

  datatype Pc<T> = Looking | Rechecking | Evaluating | Storing(result: Option<T>, at: real) | Done(answer: Answer<T>) | Raised

  datatype Caller<K, T> = Caller(key: K, begun: real, pc: Pc<T>)

  datatype System<K, T> = System(cache: State<K, T>, now: real, callers: seq<Caller<K, T>>)

  /** What one caller does in one critical section, or outside it when it evaluates the function. */
  ghost predicate CallerStep<K(!new), T>(
    func: (K, real) -> Option<T>, maxsize: int, ttl: real, now: real,
    c: State<K, T>, caller: Caller<K, T>, c': State<K, T>, caller': Caller<K, T>)
  {
    var key, m := caller.key, c.entries;
    match caller.pc
    case Looking =>
      && c' == Looked(c, key, now, ttl)
      && caller' == caller.(pc := if Live(m, key, now, ttl) && m[key].value.Some?
                                  then Done(Cached(m[key].value, m[key].time, now)) else Rechecking)
    case Rechecking =>
      && c' == c
      && caller' == caller.(pc := if Live(m, key, now, ttl) then Done(Cached(m[key].value, m[key].time, now)) else Evaluating)
    case Evaluating => c' == c && caller' == caller.(pc := Storing(func(key, now), now))
    case Storing(result, at) =>
      && Stored(c, key, result, now, maxsize, c')
      && caller' == caller.(pc := if Raises(m, key, maxsize) then Raised else Done(Computed(result, at, now)))
    case Done(_) => false
    case Raised => false
  }

  /** One caller alone makes these steps, step i at clock value i. */
  ghost predicate Executes<K(!new), T>(
    func: (K, real) -> Option<T>, maxsize: int, ttl: real, key: K, clocks: seq<real>, trace: seq<(State<K, T>, Pc<T>)>)
  {
    && 1 <= |trace| <= |clocks| + 1
    && forall i: nat | i + 1 < |trace| :: ExecutesAt(func, maxsize, ttl, key, clocks, trace, i)
  }

  ghost predicate ExecutesAt<K(!new), T>(
    func: (K, real) -> Option<T>, maxsize: int, ttl: real, key: K, clocks: seq<real>, trace: seq<(State<K, T>, Pc<T>)>, i: nat)
    requires i + 1 < |trace| <= |clocks| + 1
  {
    CallerStep(func, maxsize, ttl, clocks[i],
               trace[i].0, Caller(key, clocks[0], trace[i].1), trace[i + 1].0, Caller(key, clocks[0], trace[i + 1].1))
  }

  // ---------- One call ----------

  class Memoised<K(==,!new), T(==)> {
    const func: (K, real) -> Option<T>
    const cache: TTLCacheWrapper<K, T>

    constructor (func: (K, real) -> Option<T>, cache: TTLCacheWrapper<K, T>)
      ensures this.func == func && this.cache == cache
    {
      this.func, this.cache := func, cache;
    }

    /** The clock values are those of the two looks, of the evaluation and of the store. The call
        recomputes exactly when no entry answers it: one live at the first look, and, if it holds None,
        still live at the second. It raises exactly when it recomputes and the cache can hold nothing.
        What it does is a series of steps of one caller of the system below. */
    method Call(key: K, look: real, recheck: real, evaluate: real, store: real)
      returns (result: Option<T>, recomputed: bool, raised: bool, ghost trace: seq<(State<K, T>, Pc<T>)>)
      requires cache.Valid() && Sourced(cache.cache, func)
      requires look <= recheck <= evaluate <= store
      modifies cache, cache.stats, cache.globalStats
      ensures cache.Valid() && Sourced(cache.cache, func)
      ensures var m := old(cache.cache);
              recomputed <==> !(&& key in m && look - m[key].time <= cache.ttl
                                && (m[key].value.Some? || recheck - m[key].time <= cache.ttl))
      ensures raised <==> recomputed && cache.maxsize <= 0
      ensures result == if recomputed then func(key, evaluate) else old(cache.cache)[key].value
      ensures !recomputed ==> cache.cache == old(cache.cache)
      ensures recomputed && !raised ==> key in cache.cache && cache.cache[key] == Entry(store, result)
      ensures Pure(func, key) ==> result == func(key, evaluate)
      ensures Executes(func, cache.maxsize, cache.ttl, key, [look, recheck, evaluate, store], trace)
      ensures trace[0] == (old(cache.View()), Looking) && trace[|trace| - 1].0 == cache.View()
      ensures trace[|trace| - 1].1
              == if raised then Raised
                 else if recomputed then Done(Computed(result, evaluate, store))
                 else Done(Cached(result, old(cache.cache)[key].time, if result.Some? then look else recheck))
    {
      ghost var before := cache.View();
      trace := [(before, Looking)];
      recomputed, raised := false, false;
      result := cache.Get(key, look);
      if result.Some? {
        trace := trace + [(cache.View(), Done(Cached(result, before.entries[key].time, look)))];
        return;
      }
      trace := trace + [(cache.View(), Rechecking)];
      if key in cache.cache {
        var entry := cache.cache[key];
        if recheck - entry.time <= cache.ttl {
          result := entry.value;
          trace := trace + [(cache.View(), Done(Cached(result, entry.time, recheck)))];
          return;
        }
      }
      assert Sourced(cache.cache, func);
      trace := trace + [(cache.View(), Evaluating)];
      recomputed := true;
      trace := trace + [(cache.View(), Storing(func(key, evaluate), evaluate))];
      result, raised := Compute(key, evaluate, store);
      trace := trace + [(cache.View(), if raised then Raised else Done(Computed(result, evaluate, store)))];
    }

    /** Evaluates the function and stores what it gives. */
    method Compute(key: K, evaluate: real, store: real) returns (result: Option<T>, raised: bool)
      requires cache.Valid() && Sourced(cache.cache, func) && evaluate <= store
      modifies cache, cache.stats, cache.globalStats
      ensures cache.Valid() && Sourced(cache.cache, func)
      ensures result == func(key, evaluate) && (raised <==> cache.maxsize <= 0)
      ensures Stored(old(cache.View()), key, result, store, cache.maxsize, cache.View())
      ensures !raised ==> key in cache.cache && cache.cache[key] == Entry(store, result)
    {
      result := func(key, evaluate);
      ghost var entries := cache.cache;
      raised := cache.Put(key, result, store);
      assert Gave(func, key, result, store);
      forall k | k in cache.cache
        ensures Gave(func, k, cache.cache[k].value, cache.cache[k].time)
      {
        if k != key {
          assert k in entries && cache.cache[k] == entries[k];
        }
      }
    }
  }

  // ---------- Interleavings ----------

  /** Time passes and: a call begins, a caller takes a step, or entries are invalidated or cleared. */
  ghost predicate Next<K(!new), T(!new)>(func: (K, real) -> Option<T>, maxsize: int, ttl: real, s: System<K, T>, s': System<K, T>) {
    && s.now <= s'.now
    && (|| (exists key: K :: s'.cache == s.cache && s'.callers == s.callers + [Caller(key, s'.now, Looking)])
        || (exists i: nat, caller: Caller<K, T> ::
              && i < |s.callers| && s'.callers == s.callers[i := caller]
              && CallerStep(func, maxsize, ttl, s'.now, s.cache, s.callers[i], s'.cache, caller))
        || (s'.callers == s.callers && Shrunk(s.cache.entries, s'.cache.entries)))
  }

  ghost predicate Shrunk<K, T>(m: Entries<K, T>, m': Entries<K, T>) {
    forall k | k in m' :: k in m && m'[k] == m[k]
  }

  ghost predicate IsRun<K(!new), T(!new)>(func: (K, real) -> Option<T>, maxsize: int, ttl: real, run: seq<System<K, T>>) {
    && run != [] && run[0].cache.entries == map[] && run[0].callers == []
    && forall i: nat | i + 1 < |run| :: Next(func, maxsize, ttl, run[i], run[i + 1])
  }

  /** Some call for this key computed this value and stored it at this time. */
  ghost predicate StoredBySome<K, T>(callers: seq<Caller<K, T>>, key: K, value: Option<T>, stored: real) {
    exists j: nat :: j < |callers| && StoredBy(callers[j], key, value, stored)
  }

  ghost predicate StoredBy<K, T>(c: Caller<K, T>, key: K, value: Option<T>, stored: real) {
    c.key == key && c.pc.Done? && c.pc.answer.Computed? && c.pc.answer.value == value && c.pc.answer.stored == stored
  }

  /** A computed answer is the function's value at a moment of its own call. A cached one was stored, at most
      `ttl` before this call read it, by a call for the same key as the value that call computed. */
  ghost predicate Justified<K, T>(
    func: (K, real) -> Option<T>, ttl: real, now: real, callers: seq<Caller<K, T>>, c: Caller<K, T>)
  {
    match c.pc
    case Storing(result, at) => c.begun <= at <= now && result == func(c.key, at)
    case Done(Computed(value, at, stored)) => c.begun <= at <= stored <= now && value == func(c.key, at)
    case Done(Cached(value, stored, read)) =>
      && c.begun <= read <= now && stored <= read && read - stored <= ttl
      && StoredBySome(callers, c.key, value, stored)
    case _ => c.begun <= now
  }

  /** Every resident entry was stored, with its timestamp, by a call that computed it. */
  ghost predicate EntriesStored<K(!new), T(!new)>(m: Entries<K, T>, callers: seq<Caller<K, T>>) {
    forall k | k in m :: StoredBySome(callers, k, m[k].value, m[k].time)
  }

  ghost predicate Inv<K(!new), T(!new)>(func: (K, real) -> Option<T>, ttl: real, s: System<K, T>) {
    && EntriesStored(s.cache.entries, s.callers)
    && forall i: nat | i < |s.callers| :: Justified(func, ttl, s.now, s.callers, s.callers[i])
  }

  /** Calls that have stored are still there after more calls begin, or another one moves. */
  ghost predicate KeepsStorers<K, T>(callers: seq<Caller<K, T>>, callers': seq<Caller<K, T>>) {
    |callers| <= |callers'| && forall j: nat | j < |callers| && callers[j].pc.Done? :: callers'[j] == callers[j]
  }

  lemma StorerStays<K(!new), T(!new)>(
    callers: seq<Caller<K, T>>, callers': seq<Caller<K, T>>, key: K, value: Option<T>, stored: real)
    requires KeepsStorers(callers, callers') && StoredBySome(callers, key, value, stored)
    ensures StoredBySome(callers', key, value, stored)
  {
    var j: nat :| j < |callers| && StoredBy(callers[j], key, value, stored);
    assert StoredBy(callers'[j], key, value, stored);
  }

  lemma NextKeepsStorers<K(!new), T(!new)>(func: (K, real) -> Option<T>, maxsize: int, ttl: real, s: System<K, T>, s': System<K, T>)
    requires Next(func, maxsize, ttl, s, s')
    ensures KeepsStorers(s.callers, s'.callers)
  {
  }

  lemma JustifiedStays<K(!new), T(!new)>(
    func: (K, real) -> Option<T>, ttl: real, now: real, now': real, callers: seq<Caller<K, T>>, callers': seq<Caller<K, T>>, c: Caller<K, T>)
    requires now <= now' && KeepsStorers(callers, callers') && Justified(func, ttl, now, callers, c)
    ensures Justified(func, ttl, now', callers', c)
  {
    if c.pc.Done? && c.pc.answer.Cached? {
      StorerStays(callers, callers', c.key, c.pc.answer.value, c.pc.answer.stored);
    }
  }

  lemma SurvivorsStored<K(!new), T(!new)>(m: Entries<K, T>, m': Entries<K, T>, callers: seq<Caller<K, T>>, callers': seq<Caller<K, T>>)
    requires EntriesStored(m, callers) && KeepsStorers(callers, callers') && Shrunk(m, m')
    ensures EntriesStored(m', callers')
  {
    forall k | k in m'
      ensures StoredBySome(callers', k, m'[k].value, m'[k].time)
    {
      StorerStays(callers, callers', k, m[k].value, m[k].time);
    }
  }

  /** An entry is never from the future. */
  lemma StoredInThePast<K(!new), T(!new)>(func: (K, real) -> Option<T>, ttl: real, s: System<K, T>, key: K)
    requires Inv(func, ttl, s) && key in s.cache.entries
    ensures s.cache.entries[key].time <= s.now
  {
    var e := s.cache.entries[key];
    var j: nat :| j < |s.callers| && StoredBy(s.callers[j], key, e.value, e.time);
    assert Justified(func, ttl, s.now, s.callers, s.callers[j]);
  }

  /** The caller that moves is justified in its new state. */
  lemma MoverIsJustified<K(!new), T(!new)>(
    func: (K, real) -> Option<T>, maxsize: int, ttl: real, s: System<K, T>, s': System<K, T>, i: nat)
    requires Inv(func, ttl, s) && s.now <= s'.now && i < |s.callers| == |s'.callers|
    requires KeepsStorers(s.callers, s'.callers)
    requires CallerStep(func, maxsize, ttl, s'.now, s.cache, s.callers[i], s'.cache, s'.callers[i])
    ensures Justified(func, ttl, s'.now, s'.callers, s'.callers[i])
  {
    var c := s.callers[i];
    assert Justified(func, ttl, s.now, s.callers, c);
    if c.key in s.cache.entries {
      var e := s.cache.entries[c.key];
      StorerStays(s.callers, s'.callers, c.key, e.value, e.time);
      StoredInThePast(func, ttl, s, c.key);
    }
  }

  /** What a call stores is what it computed, under the time at which it stores it. */
  lemma MoverStores<K(!new), T(!new)>(
    func: (K, real) -> Option<T>, maxsize: int, ttl: real, s: System<K, T>, s': System<K, T>, i: nat)
    requires EntriesStored(s.cache.entries, s.callers) && i < |s.callers| == |s'.callers|
    requires KeepsStorers(s.callers, s'.callers)
    requires CallerStep(func, maxsize, ttl, s'.now, s.cache, s.callers[i], s'.cache, s'.callers[i])
    ensures EntriesStored(s'.cache.entries, s'.callers)
  {
    var c, m, m' := s.callers[i], s.cache.entries, s'.cache.entries;
    if c.pc.Storing? && !Raises(m, c.key, maxsize) {
      assert StoredBy(s'.callers[i], c.key, m'[c.key].value, m'[c.key].time);
      forall k | k in m' && k != c.key
        ensures StoredBySome(s'.callers, k, m'[k].value, m'[k].time)
      {
        assert k in m && m'[k] == m[k];
        StorerStays(s.callers, s'.callers, k, m[k].value, m[k].time);
      }
    } else {
      SurvivorsStored(m, m', s.callers, s'.callers);
    }
  }

  lemma NextKeepsInv<K(!new), T(!new)>(func: (K, real) -> Option<T>, maxsize: int, ttl: real, s: System<K, T>, s': System<K, T>)
    requires Next(func, maxsize, ttl, s, s') && Inv(func, ttl, s)
    ensures Inv(func, ttl, s')
  {
    NextKeepsStorers(func, maxsize, ttl, s, s');
    forall i: nat | i < |s.callers|
      ensures Justified(func, ttl, s'.now, s'.callers, s.callers[i])
    {
      JustifiedStays(func, ttl, s.now, s'.now, s.callers, s'.callers, s.callers[i]);
    }
    if i: nat, caller: Caller<K, T> :|
      && i < |s.callers| && s'.callers == s.callers[i := caller]
      && CallerStep(func, maxsize, ttl, s'.now, s.cache, s.callers[i], s'.cache, caller)
    {
      MoverIsJustified(func, maxsize, ttl, s, s', i);
      MoverStores(func, maxsize, ttl, s, s', i);
    } else {
      SurvivorsStored(s.cache.entries, s'.cache.entries, s.callers, s'.callers);
    }
  }

  /** In every interleaving every answer is justified, and every entry was stored by a call that computed
      it. */
  lemma {:induction false} AnswersAreJustified<K(!new), T(!new)>(
    func: (K, real) -> Option<T>, maxsize: int, ttl: real, run: seq<System<K, T>>, n: nat)
    requires IsRun(func, maxsize, ttl, run) && n < |run|
    ensures Inv(func, ttl, run[n])
  {
    if n > 0 {
      AnswersAreJustified(func, maxsize, ttl, run, n - 1);
      assert Next(func, maxsize, ttl, run[n - 1], run[n - 1 + 1]);
      NextKeepsInv(func, maxsize, ttl, run[n - 1], run[n]);
    }
  }

  /** Hence a cached answer is what some call of the run, for the same key, got from the function during that
      call, and stored afterwards, at most `ttl` before it was read. */
  lemma CachedAnswerWasComputed<K(!new), T(!new)>(
    func: (K, real) -> Option<T>, maxsize: int, ttl: real, run: seq<System<K, T>>, n: nat, i: nat) returns (j: nat)
    requires IsRun(func, maxsize, ttl, run) && n < |run| && i < |run[n].callers|
    requires run[n].callers[i].pc.Done? && run[n].callers[i].pc.answer.Cached?
    ensures j < |run[n].callers|
    ensures var c, d := run[n].callers[i], run[n].callers[j];
            && d.key == c.key && d.pc.Done? && d.pc.answer.Computed?
            && var a, b := c.pc.answer, d.pc.answer;
               && a.value == b.value == func(c.key, b.at) && a.stored == b.stored
               && d.begun <= b.at <= b.stored <= a.read && a.read - b.stored <= ttl
  {
    AnswersAreJustified(func, maxsize, ttl, run, n);
    var c := run[n].callers[i];
    assert Justified(func, ttl, run[n].now, run[n].callers, c);
    j :| j < |run[n].callers| && StoredBy(run[n].callers[j], c.key, c.pc.answer.value, c.pc.answer.stored);
    assert Justified(func, ttl, run[n].now, run[n].callers, run[n].callers[j]);
  }

  /** For a function that does not vary with time, every answer is the function's value. */
  lemma PureAnswersAreExact<K(!new), T(!new)>(
    func: (K, real) -> Option<T>, maxsize: int, ttl: real, run: seq<System<K, T>>, n: nat, i: nat, t: real)
    requires IsRun(func, maxsize, ttl, run) && n < |run| && i < |run[n].callers|
    requires run[n].callers[i].pc.Done? && Pure(func, run[n].callers[i].key)
    ensures run[n].callers[i].pc.answer.value == func(run[n].callers[i].key, t)
  {
    AnswersAreJustified(func, maxsize, ttl, run, n);
    assert Justified(func, ttl, run[n].now, run[n].callers, run[n].callers[i]);
    if run[n].callers[i].pc.answer.Cached? {
      var j := CachedAnswerWasComputed(func, maxsize, ttl, run, n, i);
    }
  }

  // ---------- A cached None that expires between the two looks ----------

  /** The caller's step is a step of the system. */
  lemma StepOfCaller<K(!new), T(!new)>(
    func: (K, real) -> Option<T>, maxsize: int, ttl: real, s: System<K, T>, s': System<K, T>, i: nat, caller: Caller<K, T>)
    requires s.now <= s'.now && i < |s.callers| && s'.callers == s.callers[i := caller]
    requires CallerStep(func, maxsize, ttl, s'.now, s.cache, s.callers[i], s'.cache, caller)
    ensures Next(func, maxsize, ttl, s, s')
  {
  }

  lemma StepOfBegin<K(!new), T(!new)>(
    func: (K, real) -> Option<T>, maxsize: int, ttl: real, s: System<K, T>, s': System<K, T>, key: K)
    requires s.now <= s'.now && s'.cache == s.cache && s'.callers == s.callers + [Caller(key, s'.now, Looking)]
    ensures Next(func, maxsize, ttl, s, s')
  {
  }

  lemma RunGrows<K(!new), T(!new)>(
    func: (K, real) -> Option<T>, maxsize: int, ttl: real, run: seq<System<K, T>>, s: System<K, T>)
    requires IsRun(func, maxsize, ttl, run) && Next(func, maxsize, ttl, run[|run| - 1], s)
    ensures IsRun(func, maxsize, ttl, run + [s])
  {
    forall i: nat | i + 1 < |run + [s]|
      ensures Next(func, maxsize, ttl, (run + [s])[i], (run + [s])[i + 1])
    {
      if i + 1 < |run| {
        assert Next(func, maxsize, ttl, run[i], run[i + 1]);
      }
    }
  }

  /** One caller moves at time `now` to `pc` and leaves the cache as `cache`. */
  lemma MoveOn<K(!new), T(!new)>(
    func: (K, real) -> Option<T>, maxsize: int, ttl: real, run: seq<System<K, T>>,
    i: nat, now: real, cache: State<K, T>, pc: Pc<T>) returns (longer: seq<System<K, T>>)
    requires IsRun(func, maxsize, ttl, run)
    requires var s := run[|run| - 1];
             && s.now <= now && i < |s.callers|
             && CallerStep(func, maxsize, ttl, now, s.cache, s.callers[i], cache, s.callers[i].(pc := pc))
    ensures IsRun(func, maxsize, ttl, longer)
    ensures var s := run[|run| - 1];
            longer == run + [System(cache, now, s.callers[i := s.callers[i].(pc := pc)])]
  {
    var s := run[|run| - 1];
    var s' := System(cache, now, s.callers[i := s.callers[i].(pc := pc)]);
    StepOfCaller(func, maxsize, ttl, s, s', i, s.callers[i].(pc := pc));
    RunGrows(func, maxsize, ttl, run, s');
    longer := run + [s'];
  }

  lemma BeginOn<K(!new), T(!new)>(
    func: (K, real) -> Option<T>, maxsize: int, ttl: real, run: seq<System<K, T>>, now: real, key: K)
    returns (longer: seq<System<K, T>>)
    requires IsRun(func, maxsize, ttl, run) && run[|run| - 1].now <= now
    ensures IsRun(func, maxsize, ttl, longer)
    ensures var s := run[|run| - 1]; longer == run + [System(s.cache, now, s.callers + [Caller(key, now, Looking)])]
  {
    var s := run[|run| - 1];
    var s' := System(s.cache, now, s.callers + [Caller(key, now, Looking)]);
    StepOfBegin(func, maxsize, ttl, s, s', key);
    RunGrows(func, maxsize, ttl, run, s');
    longer := run + [s'];
  }

  /** A first call at time t finds nothing, and computes and stores None. */
  lemma FirstCallStoresNone<K(!new), T(!new)>(func: (K, real) -> Option<T>, maxsize: int, ttl: real, key: K, t: real)
    returns (run: seq<System<K, T>>)
    requires maxsize >= 1 && func(key, t) == None
    ensures IsRun(func, maxsize, ttl, run)
    ensures var none: Option<T> := None;
            run[|run| - 1] == System(State(map[key := Entry(t, none)], Counters(0, 1, 0)), t,
                                     [Caller(key, t, Done(Computed(none, t, t)))])
  {
    var none: Option<T> := None;
    var empty: State<K, T>, missed: State<K, T> := State(map[], Counters(0, 0, 0)), State(map[], Counters(0, 1, 0));
    var start: System<K, T> := System(empty, t, []);
    run := [start];
    run := BeginOn(func, maxsize, ttl, run, t, key);
    run := MoveOn(func, maxsize, ttl, run, 0, t, missed, Rechecking);
    run := MoveOn(func, maxsize, ttl, run, 0, t, missed, Evaluating);
    run := MoveOn(func, maxsize, ttl, run, 0, t, missed, Storing(none, t));
    var stored := State(map[key := Entry(t, none)], Counters(0, 1, 0));
    assert Stored(missed, key, none, t, maxsize, stored);
    run := MoveOn(func, maxsize, ttl, run, 0, t, stored, Done(Computed(none, t, t)));
  }

  /** In steps n and n + 1 of the run call i finds a cached None for its key live at its first look and, with
      the entry still there, expired at its second, and goes on to compute the function again. */
  ghost predicate NoneExpires<K(!new), T(!new)>(ttl: real, run: seq<System<K, T>>, key: K, n: nat, i: nat)
    requires n + 2 < |run|
  {
    var before, between, after := run[n], run[n + 1], run[n + 2];
    && i < |before.callers| && i < |between.callers| && i < |after.callers| && before.callers[i].key == key
    && before.callers[i].pc.Looking? && between.callers[i].pc.Rechecking? && after.callers[i].pc.Evaluating?
    && Live(before.cache.entries, key, between.now, ttl) && before.cache.entries[key].value.None?
    && key in between.cache.entries && !Live(between.cache.entries, key, after.now, ttl)
  }

  ghost predicate NoneCanExpire<K(!new), T(!new)>(func: (K, real) -> Option<T>, maxsize: int, ttl: real, key: K) {
    exists run: seq<System<K, T>>, n: nat, i: nat ::
      IsRun(func, maxsize, ttl, run) && n + 2 < |run| && NoneExpires(ttl, run, key, n, i)
  }

  /** The run: a first call at t stores None; a second looks `ttl` later, and again one second after that. */
  lemma NoneExpiresBetweenLooks<K(!new), T(!new)>(func: (K, real) -> Option<T>, maxsize: int, ttl: real, key: K, t: real)
    requires maxsize >= 1 && ttl >= 0.0 && func(key, t) == None
    ensures NoneCanExpire(func, maxsize, ttl, key)
  {
    var run := FirstCallStoresNone(func, maxsize, ttl, key, t);
    var hit := State(run[|run| - 1].cache.entries, Counters(1, 1, 0));
    run := BeginOn(func, maxsize, ttl, run, t + ttl, key);
    var n := |run| - 1;
    run := MoveOn(func, maxsize, ttl, run, 1, t + ttl, hit, Rechecking);
    run := MoveOn(func, maxsize, ttl, run, 1, t + ttl + 1.0, hit, Evaluating);
    assert NoneExpires(ttl, run, key, n, 1);
  }

  lemma {:induction false} NothingFits<K(!new), T(!new)>(
    func: (K, real) -> Option<T>, maxsize: int, ttl: real, run: seq<System<K, T>>, n: nat)
    requires IsRun(func, maxsize, ttl, run) && n < |run| && maxsize <= 0
    ensures run[n].cache.entries == map[]
  {
    if n > 0 {
      NothingFits(func, maxsize, ttl, run, n - 1);
      assert Next(func, maxsize, ttl, run[n - 1], run[n - 1 + 1]);
    }
  }

  /** A call can find a cached None live at its first look and expired at its second exactly if the cache can
      hold anything, entries live at all, and the function ever gives None for the key. */
  lemma NoneCanExpireIff<K(!new), T(!new)>(func: (K, real) -> Option<T>, maxsize: int, ttl: real, key: K)
    ensures NoneCanExpire(func, maxsize, ttl, key)
            <==> maxsize >= 1 && ttl >= 0.0 && exists t: real :: func(key, t) == None
  {
    if maxsize >= 1 && ttl >= 0.0 && exists t: real :: func(key, t) == None {
      var t: real :| func(key, t) == None;
      NoneExpiresBetweenLooks(func, maxsize, ttl, key, t);
    }
    if NoneCanExpire(func, maxsize, ttl, key) {
      var run: seq<System<K, T>>, n: nat, i: nat :|
        IsRun(func, maxsize, ttl, run) && n + 2 < |run| && NoneExpires(ttl, run, key, n, i);
      if maxsize <= 0 {
        NothingFits(func, maxsize, ttl, run, n);
      }
      AnswersAreJustified(func, maxsize, ttl, run, n);
      StoredInThePast(func, ttl, run[n], key);
      assert Next(func, maxsize, ttl, run[n], run[n + 1]);
      var e := run[n].cache.entries[key];
      var j: nat :| j < |run[n].callers| && StoredBy(run[n].callers[j], key, e.value, e.time);
      assert Justified(func, ttl, run[n].now, run[n].callers, run[n].callers[j]);
    }
  }
}
