/** Properties of whole runs of cache operations (tftpos/cache.py). */
module CacheRuns {
  import opened Common
  import opened Cache

  /** `states[i]` is the cache before operation i; a run starts with an empty cache. */
  ghost predicate IsRun<K(!new), T>(maxsize: int, ttl: real, ops: seq<Op<K, T>>, states: seq<State<K, T>>) {
    && |states| == |ops| + 1
    && states[0] == Empty()
    && forall i: nat | i < |ops| :: RunStep(maxsize, ttl, ops, states, i)
  }

  ghost predicate RunStep<K(!new), T>(maxsize: int, ttl: real, ops: seq<Op<K, T>>, states: seq<State<K, T>>, i: nat)
    requires i < |ops| && |states| == |ops| + 1
  {
    Step(maxsize, ttl, states[i], ops[i], states[i + 1])
  }

  function Empty<K, T>(): State<K, T> {
    State(map[], Counters(0, 0, 0))
  }

  /** The position of the latest put of `key` among the first n operations. */
  function LastPut<K(==), T>(ops: seq<Op<K, T>>, key: K, n: nat): (p: Option<nat>)
    requires n <= |ops|
    ensures p.Some? ==> p.value < n && ops[p.value].Put? && ops[p.value].key == key
  {
    if n == 0 then None
    else if ops[n - 1].Put? && ops[n - 1].key == key then Some(n - 1)
    else LastPut(ops, key, n - 1)
  }

  // ---------- Size and contents ----------

  lemma {:induction false} NeverExceedsMaxsize<K(!new), T>(maxsize: int, ttl: real, ops: seq<Op<K, T>>, states: seq<State<K, T>>, n: nat)
    requires IsRun(maxsize, ttl, ops, states) && n <= |ops|
    ensures |states[n].entries| <= if maxsize > 0 then maxsize else 0
  {
    if n > 0 {
      NeverExceedsMaxsize(maxsize, ttl, ops, states, n - 1);
      assert RunStep(maxsize, ttl, ops, states, n - 1);
      StepBoundsSize(maxsize, ttl, states[n - 1], ops[n - 1], states[n]);
    }
  }

  lemma StepBoundsSize<K(!new), T>(maxsize: int, ttl: real, s: State<K, T>, op: Op<K, T>, s': State<K, T>)
    requires Step(maxsize, ttl, s, op, s')
    requires |s.entries| <= if maxsize > 0 then maxsize else 0
    ensures |s'.entries| <= if maxsize > 0 then maxsize else 0
  {
    match op {
      case Get(_, key) => SizeAfterDrop(s.entries, {key});
      case Put(now, key, value) =>
        if key !in s.entries && |s.entries| >= maxsize && |s.entries| > 0 {
          var victim :| victim in s.entries && Oldest(s.entries, victim) && s' == Replaced(s, victim, key, value, now);
          SizeAfterReplace(s.entries, victim, key, Entry(now, value));
        }
      case Invalidate(_, key) => SizeAfterDrop(s.entries, {key});
      case InvalidateMatching(_, matching) => SizeAfterDrop(s.entries, matching);
      case Clear(_) =>
    }
  }

  lemma SizeAfterReplace<K, V>(m: map<K, V>, victim: K, key: K, v: V)
    requires victim in m && key !in m
    ensures |(m - {victim})[key := v]| == |m|
  {
    SizeAfterDrop(m, {victim});
    assert {victim} * m.Keys == {victim};
    assert (m - {victim})[key := v].Keys == (m - {victim}).Keys + {key};
  }

  // ---------- When an entry leaves ----------

  /** An operation other than a put into a full cache drops an entry exactly if it is a get that finds it too
      old, an invalidation of it, or a clear. A put drops one only from a full cache, and then an oldest. */
  lemma EntryLeavesIff<K(!new), T>(maxsize: int, ttl: real, s: State<K, T>, op: Op<K, T>, s': State<K, T>, key: K)
    requires Step(maxsize, ttl, s, op, s') && key in s.entries
    ensures !op.Put? ==>
              (key !in s'.entries
               <==> || (op.Get? && op.key == key && op.now - s.entries[key].time > ttl)
                    || (op.Invalidate? && op.key == key)
                    || (op.InvalidateMatching? && key in op.matching)
                    || op.Clear?)
    ensures op.Put? && key !in s'.entries ==>
              && op.key !in s.entries && |s.entries| >= maxsize
              && forall l | l in s.entries && l != key :: l in s'.entries && s.entries[key].time <= s.entries[l].time
    ensures key in s'.entries && !(op.Put? && op.key == key) ==> s'.entries[key] == s.entries[key]
  {
    if op.Put? && op.key !in s.entries && |s.entries| >= maxsize && |s.entries| > 0 {
      var victim :| victim in s.entries && Oldest(s.entries, victim) && s' == Replaced(s, victim, op.key, op.value, op.now);
    }
  }

  /** Only a put brings an entry. */
  lemma AbsentUnlessPut<K(!new), T>(maxsize: int, ttl: real, s: State<K, T>, op: Op<K, T>, s': State<K, T>, key: K)
    requires Step(maxsize, ttl, s, op, s') && key !in s.entries && !Puts(op, key)
    ensures key !in s'.entries
  {
  }

  /** A get counts a hit exactly if the entry is there and at most `ttl` old, and else a miss. */
  lemma AnswersTell<K(!new), T>(maxsize: int, ttl: real, s: State<K, T>, op: Op<K, T>, s': State<K, T>)
    requires Step(maxsize, ttl, s, op, s')
    ensures var hit := op.Get? && op.key in s.entries && op.now - s.entries[op.key].time <= ttl;
            && s'.counters.hits == s.counters.hits + (if hit then 1 else 0)
            && s'.counters.misses == s.counters.misses + (if op.Get? && !hit then 1 else 0)
  {
  }

  lemma KeysGone<K, V>(m: map<K, V>, keys: set<K>)
    ensures m.Keys - (m - keys).Keys == keys * m.Keys
  {
  }

  lemma VictimGone<K(!new), T>(s: State<K, T>, victim: K, key: K, value: Option<T>, now: real)
    requires victim in s.entries && key !in s.entries
    ensures s.entries.Keys - Replaced(s, victim, key, value, now).entries.Keys == {victim}
  {
  }

  /** Evictions grow by the number of entries that leave, except in a clear. */
  lemma EvictionsTell<K(!new), T>(maxsize: int, ttl: real, s: State<K, T>, op: Op<K, T>, s': State<K, T>)
    requires Step(maxsize, ttl, s, op, s') && !op.Clear?
    ensures s'.counters.evictions == s.counters.evictions + |s.entries.Keys - s'.entries.Keys|
  {
    match op {
      case Get(now, key) =>
        KeysGone(s.entries, {key});
        assert key in s.entries ==> {key} * s.entries.Keys == {key};
        assert s.entries.Keys - s.entries.Keys == {};
      case Put(now, key, value) =>
        if key !in s.entries && |s.entries| >= maxsize && |s.entries| > 0 {
          var victim :| victim in s.entries && Oldest(s.entries, victim) && s' == Replaced(s, victim, key, value, now);
          VictimGone(s, victim, key, value, now);
        } else {
          assert s.entries.Keys - s'.entries.Keys == {};
        }
      case Invalidate(_, key) => KeysGone(s.entries, {key});
      case InvalidateMatching(_, matching) => KeysGone(s.entries, matching);
    }
  }

  predicate Puts<K(==), T>(op: Op<K, T>, key: K) {
    op.Put? && op.key == key
  }

  /** A key invalidated, alone or with others, or cleared away is not in the cache until it is put again, and a
      get of it misses. */
  lemma {:induction false} InvalidatedIsGone<K(!new), T>(
    maxsize: int, ttl: real, ops: seq<Op<K, T>>, states: seq<State<K, T>>, j: nat, n: nat, key: K)
    requires IsRun(maxsize, ttl, ops, states) && j < n <= |ops|
    requires || (ops[j].Invalidate? && ops[j].key == key)
             || (ops[j].InvalidateMatching? && key in ops[j].matching)
             || ops[j].Clear?
    requires forall i | j < i < n :: !Puts(ops[i], key)
    ensures key !in states[n].entries
    ensures n < |ops| && ops[n].Get? && ops[n].key == key ==>
              && states[n + 1].counters.hits == states[n].counters.hits
              && states[n + 1].counters.misses == states[n].counters.misses + 1
  {
    assert RunStep(maxsize, ttl, ops, states, n - 1);
    if j < n - 1 {
      InvalidatedIsGone(maxsize, ttl, ops, states, j, n - 1, key);
      AbsentUnlessPut(maxsize, ttl, states[n - 1], ops[n - 1], states[n], key);
    }
    if n < |ops| && ops[n].Get? && ops[n].key == key {
      assert RunStep(maxsize, ttl, ops, states, n);
      AnswersTell(maxsize, ttl, states[n], ops[n], states[n + 1]);
    }
  }

  /** The operation does not drop the entry that `key` was given at time `put`; a put into a full cache may. */
  ghost predicate Spares<K, T>(ttl: real, op: Op<K, T>, s': State<K, T>, key: K, put: real) {
    match op
    case Get(now, k) => k == key ==> now - put <= ttl
    case Put(_, _, _) => key in s'.entries
    case Invalidate(_, k) => k != key
    case InvalidateMatching(_, matching) => key !in matching
    case Clear(_) => false
  }

  /** What was put last for a key is in the cache exactly as long as nothing has dropped it. */
  lemma {:induction false} ResidentIffSpared<K(!new), T>(
    maxsize: int, ttl: real, ops: seq<Op<K, T>>, states: seq<State<K, T>>, p: nat, n: nat, key: K)
    requires IsRun(maxsize, ttl, ops, states) && maxsize >= 1 && p < n <= |ops|
    requires Puts(ops[p], key) && forall i | p < i < n :: !Puts(ops[i], key)
    ensures key in states[n].entries <==> forall i | p < i < n :: Spares(ttl, ops[i], states[i + 1], key, ops[p].now)
    ensures key in states[n].entries ==> states[n].entries[key] == Entry(ops[p].now, ops[p].value)
    decreases n
  {
    assert RunStep(maxsize, ttl, ops, states, n - 1);
    if p < n - 1 {
      ResidentIffSpared(maxsize, ttl, ops, states, p, n - 1, key);
      if key in states[n - 1].entries {
        EntryLeavesIff(maxsize, ttl, states[n - 1], ops[n - 1], states[n], key);
        assert key in states[n].entries <==> Spares(ttl, ops[n - 1], states[n], key, ops[p].now);
      } else {
        AbsentUnlessPut(maxsize, ttl, states[n - 1], ops[n - 1], states[n], key);
      }
    }
  }

  /** A get is a hit exactly if what was put last has been spared and is at most `ttl` old; otherwise a miss. */
  lemma GetHitsIff<K(!new), T>(
    maxsize: int, ttl: real, ops: seq<Op<K, T>>, states: seq<State<K, T>>, p: nat, n: nat)
    requires IsRun(maxsize, ttl, ops, states) && maxsize >= 1 && p < n < |ops| && ops[n].Get?
    requires Puts(ops[p], ops[n].key) && forall i | p < i < n :: !Puts(ops[i], ops[n].key)
    ensures var hit := && ops[n].now - ops[p].now <= ttl
                       && forall i | p < i < n :: Spares(ttl, ops[i], states[i + 1], ops[n].key, ops[p].now);
            && states[n + 1].counters.hits == states[n].counters.hits + (if hit then 1 else 0)
            && states[n + 1].counters.misses == states[n].counters.misses + (if hit then 0 else 1)
  {
    assert RunStep(maxsize, ttl, ops, states, n);
    ResidentIffSpared(maxsize, ttl, ops, states, p, n, ops[n].key);
    AnswersTell(maxsize, ttl, states[n], ops[n], states[n + 1]);
  }

  /** Where a resident entry comes from: it was there before, unchanged, or this operation put it. */
  lemma StepOrigin<K(!new), T>(maxsize: int, ttl: real, s: State<K, T>, op: Op<K, T>, s': State<K, T>, k: K)
    requires Step(maxsize, ttl, s, op, s') && k in s'.entries
    requires maxsize <= 0 ==> s.entries == map[]
    ensures if op.Put? && op.key == k then s'.entries[k] == Entry(op.now, op.value)
            else k in s.entries && s'.entries[k] == s.entries[k]
  {
  }

  lemma OriginInRun<K(!new), T>(maxsize: int, ttl: real, ops: seq<Op<K, T>>, states: seq<State<K, T>>, i: nat, k: K)
    requires IsRun(maxsize, ttl, ops, states) && i < |ops| && k in states[i + 1].entries
    ensures if ops[i].Put? && ops[i].key == k then states[i + 1].entries[k] == Entry(ops[i].now, ops[i].value)
            else k in states[i].entries && states[i + 1].entries[k] == states[i].entries[k]
  {
    NeverExceedsMaxsize(maxsize, ttl, ops, states, i);
    assert RunStep(maxsize, ttl, ops, states, i);
    StepOrigin(maxsize, ttl, states[i], ops[i], states[i + 1], k);
  }

  /** Every resident entry is the latest put for its key: time and value. */
  lemma {:induction false} ResidentIsLatestPut<K(!new), T>(maxsize: int, ttl: real, ops: seq<Op<K, T>>, states: seq<State<K, T>>, n: nat, k: K)
    requires IsRun(maxsize, ttl, ops, states) && n <= |ops|
    requires k in states[n].entries
    ensures LastPut(ops, k, n).Some?
    ensures var p := ops[LastPut(ops, k, n).value];
            p.Put? && p.key == k && states[n].entries[k] == Entry(p.now, p.value)
  {
    if n > 0 {
      OriginInRun(maxsize, ttl, ops, states, n - 1, k);
      if !(ops[n - 1].Put? && ops[n - 1].key == k) {
        ResidentIsLatestPut(maxsize, ttl, ops, states, n - 1, k);
      }
    }
  }

  // ---------- Eviction ----------

  ghost predicate ClocksInOrder<K(!new), T(!new)>(ops: seq<Op<K, T>>) {
    forall i, j | 0 <= i < j < |ops| :: ops[i].now <= ops[j].now
  }

  ghost predicate ClocksIncrease<K(!new), T(!new)>(ops: seq<Op<K, T>>) {
    forall i, j | 0 <= i < j < |ops| :: ops[i].now < ops[j].now
  }

  /** Operation j put another key and thereby lost k. */
  ghost predicate LostAt<K, T>(ops: seq<Op<K, T>>, states: seq<State<K, T>>, k: K, j: nat)
    requires |states| == |ops| + 1
  {
    j < |ops| && ops[j].Put? && ops[j].key != k && k in states[j].entries && k !in states[j + 1].entries
  }

  lemma LostIsOldest<K(!new), T>(maxsize: int, ttl: real, ops: seq<Op<K, T>>, states: seq<State<K, T>>, k: K, j: nat)
    requires IsRun(maxsize, ttl, ops, states) && LostAt(ops, states, k, j)
    ensures Oldest(states[j].entries, k)
  {
    assert RunStep(maxsize, ttl, ops, states, j);
  }

  /** A key lost to capacity, and not put again, was last written no later than any resident. */
  lemma {:induction false} LostIsNoNewer<K(!new), T(!new)>(
    maxsize: int, ttl: real, ops: seq<Op<K, T>>, states: seq<State<K, T>>, k: K, j: nat, n: nat, l: K)
    requires IsRun(maxsize, ttl, ops, states) && ClocksInOrder(ops)
    requires LostAt(ops, states, k, j) && j < n <= |ops|
    requires forall i | j < i < n && ops[i].Put? :: ops[i].key != k
    requires l in states[n].entries
    ensures LastPut(ops, k, n) == LastPut(ops, k, j)
    ensures states[j].entries[k].time <= states[n].entries[l].time
    decreases n
  {
    var i := n - 1;
    OriginInRun(maxsize, ttl, ops, states, i, l);
    ResidentIsLatestPut(maxsize, ttl, ops, states, j, k);
    LostIsOldest(maxsize, ttl, ops, states, k, j);
    if j < i {
      if l in states[i].entries {
        LostIsNoNewer(maxsize, ttl, ops, states, k, j, i, l);
      } else {
        LastPutUnchanged(ops, k, j, i);
      }
    }
  }

  lemma {:induction false} LastPutUnchanged<K, T>(ops: seq<Op<K, T>>, k: K, j: nat, n: nat)
    requires j <= n <= |ops|
    requires forall i | j <= i < n && ops[i].Put? :: ops[i].key != k
    ensures LastPut(ops, k, n) == LastPut(ops, k, j)
    decreases n
  {
    if j < n {
      LastPutUnchanged(ops, k, j, n - 1);
    }
  }

  /** Under strictly increasing clocks it was last written before every resident, put for put. */
  lemma LostWasWrittenBeforeResidents<K(!new), T(!new)>(
    maxsize: int, ttl: real, ops: seq<Op<K, T>>, states: seq<State<K, T>>, k: K, j: nat, n: nat, l: K)
    requires IsRun(maxsize, ttl, ops, states) && ClocksIncrease(ops)
    requires LostAt(ops, states, k, j) && j < n <= |ops|
    requires forall i | j < i < n && ops[i].Put? :: ops[i].key != k
    requires l in states[n].entries && k != l
    ensures LastPut(ops, k, n).Some? && LastPut(ops, l, n).Some?
    ensures LastPut(ops, k, n).value < LastPut(ops, l, n).value
  {
    LostIsNoNewer(maxsize, ttl, ops, states, k, j, n, l);
    ResidentIsLatestPut(maxsize, ttl, ops, states, j, k);
    ResidentIsLatestPut(maxsize, ttl, ops, states, n, l);
  }

  // ---------- Puts alone ----------

  ghost predicate PutsOnly<K(!new), T(!new)>(ops: seq<Op<K, T>>) {
    forall i: nat | i < |ops| :: ops[i].Put?
  }

  ghost function Written<K, T>(ops: seq<Op<K, T>>, n: nat): set<K>
    requires n <= |ops|
  {
    if n == 0 then {} else Written(ops, n - 1) + (if ops[n - 1].Put? then {ops[n - 1].key} else {})
  }

  lemma {:induction false} WrittenIff<K, T>(ops: seq<Op<K, T>>, k: K, n: nat)
    requires n <= |ops|
    ensures k in Written(ops, n) <==> LastPut(ops, k, n).Some?
  {
    if n > 0 {
      WrittenIff(ops, k, n - 1);
    }
  }

  /** `l` was last written after `k`. */
  ghost predicate Newer<K, T>(ops: seq<Op<K, T>>, l: K, k: K, n: nat)
    requires n <= |ops|
  {
    LastPut(ops, k, n).Some? && LastPut(ops, l, n).Some? && LastPut(ops, k, n).value < LastPut(ops, l, n).value
  }

  ghost function NewerThan<K, T>(ops: seq<Op<K, T>>, k: K, n: nat): set<K>
    requires n <= |ops|
  {
    set l | l in Written(ops, n) && Newer(ops, l, k, n)
  }

  /** Residents have been written, and every written key that is not resident is older than all of them. */
  ghost predicate Recent<K(!new), T>(maxsize: int, ops: seq<Op<K, T>>, m: Entries<K, T>, n: nat)
    requires n <= |ops|
  {
    && m.Keys <= Written(ops, n)
    && (m.Keys != Written(ops, n) ==> |m| == maxsize)
    && forall k, l | k in Written(ops, n) && k !in m && l in m :: Newer(ops, l, k, n)
  }

  lemma NewerStep<K(!new), T>(ops: seq<Op<K, T>>, l: K, k: K, n: nat)
    requires 0 < n <= |ops| && k != l && ops[n - 1].Put? && ops[n - 1].key != k
    requires LastPut(ops, k, n - 1).Some?
    requires l == ops[n - 1].key || Newer(ops, l, k, n - 1)
    ensures Newer(ops, l, k, n)
  {
  }

  lemma PutKeepsOrder<K(!new), T(!new)>(
    maxsize: int, ttl: real, ops: seq<Op<K, T>>, states: seq<State<K, T>>, n: nat, k: K, l: K)
    requires IsRun(maxsize, ttl, ops, states) && PutsOnly(ops) && ClocksIncrease(ops) && maxsize >= 1
    requires n < |ops| && Recent(maxsize, ops, states[n].entries, n)
    requires ops[n].key in states[n + 1].entries
    requires k in Written(ops, n + 1) && k !in states[n + 1].entries && l in states[n + 1].entries
    ensures Newer(ops, l, k, n + 1)
  {
    WrittenIff(ops, k, n);
    if k in states[n].entries {
      assert LostAt(ops, states, k, n);
      LostWasWrittenBeforeResidents(maxsize, ttl, ops, states, k, n, n + 1, l);
    } else {
      OriginInRun(maxsize, ttl, ops, states, n, l);
      NewerStep(ops, l, k, n + 1);
    }
  }

  lemma PutKeepsFull<K(!new), T(!new)>(maxsize: int, ttl: real, ops: seq<Op<K, T>>, states: seq<State<K, T>>, n: nat)
    requires IsRun(maxsize, ttl, ops, states) && maxsize >= 1 && n < |ops| && ops[n].Put?
    ensures var before, after, key := states[n].entries, states[n + 1].entries, ops[n].key;
            && key in after && after.Keys <= before.Keys + {key}
            && |before| <= maxsize && |after| <= maxsize && |after| >= |before|
            && (after.Keys != before.Keys + {key} ==> |after| == maxsize)
  {
    var before, after, p := states[n].entries, states[n + 1].entries, ops[n];
    NeverExceedsMaxsize(maxsize, ttl, ops, states, n);
    assert RunStep(maxsize, ttl, ops, states, n);
    if p.key !in before && |before| >= maxsize {
      var victim :| victim in before && Oldest(before, victim) && states[n + 1] == Replaced(states[n], victim, p.key, p.value, p.now);
      SizeAfterReplace(before, victim, p.key, Entry(p.now, p.value));
    } else {
      assert after.Keys == before.Keys + {p.key};
    }
  }

  lemma {:induction false} PutsKeepRecent<K(!new), T(!new)>(maxsize: int, ttl: real, ops: seq<Op<K, T>>, states: seq<State<K, T>>, n: nat)
    requires IsRun(maxsize, ttl, ops, states) && PutsOnly(ops) && ClocksIncrease(ops) && maxsize >= 1
    requires n <= |ops|
    ensures Recent(maxsize, ops, states[n].entries, n)
  {
    if n > 0 {
      var i := n - 1;
      PutsKeepRecent(maxsize, ttl, ops, states, i);
      assert ops[i].Put?;
      PutKeepsFull(maxsize, ttl, ops, states, i);
      forall k, l | k in Written(ops, n) && k !in states[n].entries && l in states[n].entries
        ensures Newer(ops, l, k, n)
      {
        PutKeepsOrder(maxsize, ttl, ops, states, i, k, l);
      }
    }
  }

  /** With puts alone the residents are exactly the `maxsize` most recently written keys. */
  lemma ResidentIffMostRecent<K(!new), T(!new)>(maxsize: int, ttl: real, ops: seq<Op<K, T>>, states: seq<State<K, T>>, n: nat, k: K)
    requires IsRun(maxsize, ttl, ops, states) && PutsOnly(ops) && ClocksIncrease(ops) && maxsize >= 1
    requires n <= |ops| && k in Written(ops, n)
    ensures k in states[n].entries <==> |NewerThan(ops, k, n)| < maxsize
  {
    PutsKeepRecent(maxsize, ttl, ops, states, n);
    NeverExceedsMaxsize(maxsize, ttl, ops, states, n);
    var m, newer := states[n].entries, NewerThan(ops, k, n);
    if k in m {
      forall l | l in newer
        ensures l in m.Keys - {k}
      {
        assert l !in m ==> Newer(ops, k, l, n);
      }
      SubsetSize(newer, m.Keys - {k});
    } else {
      assert m.Keys <= newer;
      SubsetSize(m.Keys, newer);
    }
  }

  lemma {:induction false} SubsetSize<K>(a: set<K>, b: set<K>)
    requires a <= b
    ensures |a| <= |b|
  {
    assert b == a + (b - a);
  }

  // ---------- Counters ----------

  ghost function Gets<K, T>(ops: seq<Op<K, T>>, n: nat): nat
    requires n <= |ops|
  {
    if n == 0 then 0 else Gets(ops, n - 1) + (if ops[n - 1].Get? then 1 else 0)
  }

  /** One if this is a put that added a new key. */
  ghost function Inserted<K, T>(s: State<K, T>, op: Op<K, T>, s': State<K, T>): nat {
    if op.Put? && op.key !in s.entries && op.key in s'.entries then 1 else 0
  }

  /** The entries a clear drops. */
  ghost function ClearedBy<K, T>(s: State<K, T>, op: Op<K, T>): nat {
    if op.Clear? then |s.entries| else 0
  }

  ghost function Inserts<K, T>(ops: seq<Op<K, T>>, states: seq<State<K, T>>, n: nat): nat
    requires n <= |ops| && |states| == |ops| + 1
  {
    if n == 0 then 0 else Inserts(ops, states, n - 1) + Inserted(states[n - 1], ops[n - 1], states[n])
  }

  ghost function Cleared<K, T>(ops: seq<Op<K, T>>, states: seq<State<K, T>>, n: nat): nat
    requires n <= |ops| && |states| == |ops| + 1
  {
    if n == 0 then 0 else Cleared(ops, states, n - 1) + ClearedBy(states[n - 1], ops[n - 1])
  }

  lemma StepAnswers<K(!new), T>(maxsize: int, ttl: real, s: State<K, T>, op: Op<K, T>, s': State<K, T>)
    requires Step(maxsize, ttl, s, op, s')
    ensures s'.counters.hits + s'.counters.misses == s.counters.hits + s.counters.misses + (if op.Get? then 1 else 0)
  {
  }

  lemma StepConserves<K(!new), T>(maxsize: int, ttl: real, s: State<K, T>, op: Op<K, T>, s': State<K, T>)
    requires Step(maxsize, ttl, s, op, s')
    ensures |s'.entries| + s'.counters.evictions + ClearedBy(s, op) == |s.entries| + s.counters.evictions + Inserted(s, op, s')
  {
    match op {
      case Get(_, key) =>
        SizeAfterDrop(s.entries, {key});
        assert key in s.entries ==> {key} * s.entries.Keys == {key};
      case Put(now, key, value) =>
        if key !in s.entries && |s.entries| >= maxsize && |s.entries| > 0 {
          var victim :| victim in s.entries && Oldest(s.entries, victim) && s' == Replaced(s, victim, key, value, now);
          SizeAfterReplace(s.entries, victim, key, Entry(now, value));
        }
      case Invalidate(_, key) => SizeAfterDrop(s.entries, {key});
      case InvalidateMatching(_, matching) => SizeAfterDrop(s.entries, matching);
      case Clear(_) =>
    }
  }

  /** Every get is a hit or a miss. */
  lemma {:induction false} AnswersAreConserved<K(!new), T>(maxsize: int, ttl: real, ops: seq<Op<K, T>>, states: seq<State<K, T>>, n: nat)
    requires IsRun(maxsize, ttl, ops, states) && n <= |ops|
    ensures states[n].counters.hits + states[n].counters.misses == Gets(ops, n)
  {
    if n > 0 {
      AnswersAreConserved(maxsize, ttl, ops, states, n - 1);
      assert RunStep(maxsize, ttl, ops, states, n - 1);
      StepAnswers(maxsize, ttl, states[n - 1], ops[n - 1], states[n]);
    }
  }

  lemma RunStepConserves<K(!new), T>(maxsize: int, ttl: real, ops: seq<Op<K, T>>, states: seq<State<K, T>>, i: nat)
    requires IsRun(maxsize, ttl, ops, states) && i < |ops|
    ensures |states[i + 1].entries| + states[i + 1].counters.evictions + ClearedBy(states[i], ops[i])
            == |states[i].entries| + states[i].counters.evictions + Inserted(states[i], ops[i], states[i + 1])
  {
    assert RunStep(maxsize, ttl, ops, states, i);
    StepConserves(maxsize, ttl, states[i], ops[i], states[i + 1]);
  }

  /** Every inserted key is still there, was evicted, or was cleared. */
  lemma {:induction false} InsertsAreConserved<K(!new), T>(maxsize: int, ttl: real, ops: seq<Op<K, T>>, states: seq<State<K, T>>, n: nat)
    requires IsRun(maxsize, ttl, ops, states) && n <= |ops|
    ensures Inserts(ops, states, n) == |states[n].entries| + states[n].counters.evictions + Cleared(ops, states, n)
  {
    if n > 0 {
      InsertsAreConserved(maxsize, ttl, ops, states, n - 1);
      RunStepConserves(maxsize, ttl, ops, states, n - 1);
    }
  }

  // ---------- Several caches ----------

  datatype System<K, T> = System(caches: seq<State<K, T>>, global: Counters)

  function Plus(a: Counters, b: Counters): Counters {
    Counters(a.hits + b.hits, a.misses + b.misses, a.evictions + b.evictions)
  }

  function Total<K, T>(caches: seq<State<K, T>>): Counters {
    if caches == [] then Counters(0, 0, 0) else Plus(caches[0].counters, Total(caches[1..]))
  }

  /** A cache is created, or one operation runs on one cache and adds to the global counters alike. */
  ghost predicate SystemStep<K(!new), T(!new)>(s: System<K, T>, s': System<K, T>) {
    || (s'.caches == s.caches + [Empty()] && s'.global == s.global)
    || exists maxsize: int, ttl: real, i: nat, op: Op<K, T>, c: State<K, T> ::
         && i < |s.caches| && Step(maxsize, ttl, s.caches[i], op, c) && s'.caches == s.caches[i := c]
         && SameGrowth(s.caches[i].counters, c.counters, s.global, s'.global)
  }

  lemma {:induction false} TotalGrowth<K, T>(caches: seq<State<K, T>>, i: nat, c: State<K, T>)
    requires i < |caches|
    ensures SameGrowth(caches[i].counters, c.counters, Total(caches), Total(caches[i := c]))
  {
    if i == 0 {
      assert caches[0 := c][1..] == caches[1..];
    } else {
      assert caches[i := c][1..] == caches[1..][i - 1 := c];
      TotalGrowth(caches[1..], i - 1, c);
    }
  }

  lemma {:induction false} TotalOfNew<K, T>(caches: seq<State<K, T>>, c: State<K, T>)
    ensures Total(caches + [c]) == Plus(c.counters, Total(caches))
  {
    if caches == [] {
      assert caches + [c] == [c];
    } else {
      assert (caches + [c])[1..] == caches[1..] + [c];
      TotalOfNew(caches[1..], c);
    }
  }

  ghost predicate IsSystemRun<K(!new), T(!new)>(run: seq<System<K, T>>) {
    && run != [] && run[0] == System([], Counters(0, 0, 0))
    && forall i: nat | i + 1 < |run| :: SystemStep(run[i], run[i + 1])
  }

  /** The global counters are the sum of the counters of all caches. */
  lemma {:induction false} GlobalIsSumOfCaches<K(!new), T(!new)>(run: seq<System<K, T>>, n: nat)
    requires IsSystemRun(run) && n < |run|
    ensures run[n].global == Total(run[n].caches)
  {
    if n > 0 {
      var s, s' := run[n - 1], run[n];
      GlobalIsSumOfCaches(run, n - 1);
      assert SystemStep(run[n - 1], run[n - 1 + 1]);
      if s'.caches == s.caches + [Empty()] && s'.global == s.global {
        TotalOfNew(s.caches, Empty());
      } else {
        var maxsize: int, ttl: real, i: nat, op: Op<K, T>, c: State<K, T> :|
          && i < |s.caches| && Step(maxsize, ttl, s.caches[i], op, c) && s'.caches == s.caches[i := c]
          && SameGrowth(s.caches[i].counters, c.counters, s.global, s'.global);
        TotalGrowth(s.caches, i, c);
      }
    }
  }
}
