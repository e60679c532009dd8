/** The keyed limiter of tftpos/rate_limit.py: the mutable object, and what its runs guarantee. */
module RateLimit {
  import opened Common
  import opened TokenBucket

  /** The abstract value of a limiter: the bucket of every tracked key. */
  type Limiter = map<string, BucketState>

  function Lookup(m: Limiter, key: string): Option<BucketState> {
    if key in m then Some(m[key]) else None
  }

  function Stale(m: Limiter, now: real, maxAge: real): set<string> {
    set k | k in m && now - m[k].lastRefill > maxAge
  }

  // ---------- The object ----------

  class Bucket {
    var tokens: real
    const capacity: int
    var lastRefill: real

    constructor (tokens: real, capacity: int, lastRefill: real)
      ensures this.tokens == tokens && this.capacity == capacity && this.lastRefill == lastRefill
    {
      this.tokens, this.capacity, this.lastRefill := tokens, capacity, lastRefill;
    }

    ghost function State(): BucketState
      reads this
    {
      BucketState(tokens, lastRefill)
    }
  }

  class RateLimiter {
    const rate: real
    const burst: int
    var buckets: map<string, Bucket>

    ghost function Cfg(): Config {
      Config(rate, burst)
    }

    ghost predicate Valid()
      reads this, buckets.Values
    {
      && (forall k | k in buckets :: buckets[k].capacity == burst)
      && (forall k, l | k in buckets && l in buckets && buckets[k] == buckets[l] :: k == l)
    }

    ghost function View(): Limiter
      reads this, buckets.Values
    {
      map k | k in buckets :: buckets[k].State()
    }

    constructor (requestsPerMinute: real, burst: int)
      ensures Valid() && View() == map[]
      ensures Cfg() == Config(requestsPerMinute / 60.0, burst)
    {
      rate, this.burst := requestsPerMinute / 60.0, burst;
      buckets := map[];
    }

    method Check(key: string, now: real) returns (ok: bool)
      requires Valid()
      modifies this, buckets.Values
      ensures Valid() && (forall b <- buckets.Values :: b in old(buckets.Values) || fresh(b))
      ensures ok == CheckBucket(Cfg(), Lookup(old(View()), key), now).1
      ensures View() == old(View())[key := CheckBucket(Cfg(), Lookup(old(View()), key), now).0]
    {
      ghost var before := View();
      ghost var spec := CheckBucket(Cfg(), Lookup(before, key), now);
      if key !in buckets {
        assert key !in before;
        var bucket := new Bucket((burst - 1) as real, burst, now);
        buckets := buckets[key := bucket];
        assert bucket.State() == spec.0;
        assert View() == before[key := spec.0];
        return true;
      }
      var bucket := buckets[key];
      ghost var seen := bucket.State();
      assert Lookup(before, key) == Some(seen);
      var elapsed := now - bucket.lastRefill;
      bucket.tokens := Min(bucket.capacity as real, bucket.tokens + elapsed * rate);
      bucket.lastRefill := now;
      assert bucket.tokens == Available(Cfg(), seen, now);
      ok := bucket.tokens >= 1.0;
      if ok {
        bucket.tokens := bucket.tokens - 1.0;
      }
      assert bucket.State() == spec.0;
      assert View() == before[key := spec.0];
    }

    method Remaining(key: string, now: real) returns (n: int)
      requires Valid()
      ensures n == TokenBucket.Remaining(Cfg(), Lookup(View(), key), now)
      ensures key !in buckets ==> n == burst
    {
      if key !in buckets {
        return burst;
      }
      var bucket := buckets[key];
      var elapsed := now - bucket.lastRefill;
      var tokens := Min(bucket.capacity as real, bucket.tokens + elapsed * rate);
      return Trunc(tokens);
    }

    method RetryAfter(key: string, now: real) returns (d: real)
      requires Valid()
      ensures d == TokenBucket.RetryAfter(Cfg(), Lookup(View(), key), now)
      ensures key !in buckets || rate <= 0.0 ==> d == 0.0
    {
      if key !in buckets {
        return 0.0;
      }
      var bucket := buckets[key];
      var elapsed := now - bucket.lastRefill;
      var tokens := Min(bucket.capacity as real, bucket.tokens + elapsed * rate);
      if tokens >= 1.0 {
        return 0.0;
      }
      var needed := 1.0 - tokens;
      if rate <= 0.0 {
        return 0.0;
      }
      return needed / rate;
    }

    method Reset()
      modifies this
      ensures Valid() && View() == map[]
    {
      buckets := map[];
    }

    /** Drops exactly the buckets not refilled for longer than `maxAge`, one key at a time. */
    method Cleanup(now: real, maxAge: real) returns (removed: nat)
      requires Valid()
      modifies this
      ensures Valid() && buckets.Values <= old(buckets.Values)
      ensures View() == old(View()) - Stale(old(View()), now, maxAge)
      ensures removed == |Stale(old(View()), now, maxAge)|
      ensures forall k :: k in View() <==> k in old(View()) && now - old(View())[k].lastRefill <= maxAge
      ensures forall k | k in View() :: View()[k] == old(View())[k]
    {
      removed := 0;
      ghost var view, before := View(), buckets;
      var staleKeys := set k | k in buckets && now - buckets[k].lastRefill > maxAge;
      ghost var all := staleKeys;
      assert all == Stale(view, now, maxAge);
      while staleKeys != {}
        invariant staleKeys <= all && all <= before.Keys
        invariant buckets.Keys == before.Keys - (all - staleKeys)
        invariant forall k | k in buckets :: buckets[k] == before[k]
        invariant removed == |all| - |staleKeys|
      {
        var k :| k in staleKeys;
        buckets := buckets - {k};
        staleKeys := staleKeys - {k};
        removed := removed + 1;
      }
      assert View() == view - all;
    }
  }

  // ---------- Runs ----------

  datatype Op =
    | Check(now: real, key: string)
    | Remaining(now: real, key: string)
    | RetryAfter(now: real, key: string)
    | Cleanup(now: real, maxAge: real)
    | Reset(now: real)

  datatype Answer = Admitted(ok: bool) | Tokens(n: int) | Seconds(d: real) | Nothing

  /** One operation. A limiter that does not `forget` ignores clean-ups; it is the reference. */
  function Apply(cfg: Config, m: Limiter, op: Op, forget: bool): (Limiter, Answer) {
    match op
    case Check(now, key) =>
      var (b, ok) := CheckBucket(cfg, Lookup(m, key), now);
      (m[key := b], Admitted(ok))
    case Remaining(now, key) => (m, Tokens(TokenBucket.Remaining(cfg, Lookup(m, key), now)))
    case RetryAfter(now, key) => (m, Seconds(TokenBucket.RetryAfter(cfg, Lookup(m, key), now)))
    case Cleanup(now, maxAge) => (if forget then m - Stale(m, now, maxAge) else m, Nothing)
    case Reset(_) => (map[], Nothing)
  }

  function StateAfter(cfg: Config, m: Limiter, ops: seq<Op>, forget: bool): Limiter {
    if ops == [] then m
    else Apply(cfg, StateAfter(cfg, m, ops[..|ops| - 1], forget), ops[|ops| - 1], forget).0
  }

  function AnswerAt(cfg: Config, m: Limiter, ops: seq<Op>, i: nat, forget: bool): Answer
    requires i < |ops|
  {
    Apply(cfg, StateAfter(cfg, m, ops[..i], forget), ops[i], forget).1
  }

  lemma StateAfterStep(cfg: Config, m: Limiter, ops: seq<Op>, i: nat, forget: bool)
    requires i < |ops|
    ensures StateAfter(cfg, m, ops[..i + 1], forget)
            == Apply(cfg, StateAfter(cfg, m, ops[..i], forget), ops[i], forget).0
  {
    assert ops[..i + 1][..i] == ops[..i];
  }

  lemma {:induction false} StateAfterConcat(cfg: Config, m: Limiter, a: seq<Op>, b: seq<Op>, forget: bool)
    ensures StateAfter(cfg, m, a + b, forget) == StateAfter(cfg, StateAfter(cfg, m, a, forget), b, forget)
    decreases |b|
  {
    if b == [] {
      assert a + b == a;
    } else {
      assert (a + b)[..|a + b| - 1] == a + b[..|b| - 1];
      StateAfterConcat(cfg, m, a, b[..|b| - 1], forget);
    }
  }

  /** After a reset a limiter answers as a new one. */
  lemma ResetStartsAfresh(cfg: Config, m: Limiter, a: seq<Op>, now: real, b: seq<Op>, i: nat, forget: bool)
    requires i < |b|
    ensures AnswerAt(cfg, m, a + [Reset(now)] + b, |a| + 1 + i, forget) == AnswerAt(cfg, map[], b, i, forget)
  {
    var before := a + [Reset(now)];
    assert before[..|a|] == a;
    assert (before + b)[..|a| + 1 + i] == before + b[..i];
    StateAfterConcat(cfg, m, before, b[..i], forget);
  }

  /** The clock values of the checks made on one key, in lock order. */
  function ClocksOf(ops: seq<Op>, key: string): seq<real> {
    if ops == [] then []
    else
      var last := ops[|ops| - 1];
      ClocksOf(ops[..|ops| - 1], key) + (if last.Check? && last.key == key then [last.now] else [])
  }

  ghost predicate KeepsBuckets(ops: seq<Op>, forget: bool) {
    forall op <- ops :: !op.Reset? && (op.Cleanup? ==> !forget)
  }

  /** From a limiter that does not track `key`, and until a reset or clean-up may drop it, the key's
      bucket depends on the checks made on that key alone. */
  lemma {:induction false} BucketDependsOnItsKey(cfg: Config, m: Limiter, ops: seq<Op>, key: string, forget: bool)
    requires key !in m && KeepsBuckets(ops, forget)
    ensures Lookup(StateAfter(cfg, m, ops, forget), key) == BucketAfter(cfg, ClocksOf(ops, key))
    decreases |ops|
  {
    if ops != [] {
      var rest, last := ops[..|ops| - 1], ops[|ops| - 1];
      BucketDependsOnItsKey(cfg, m, rest, key, forget);
      assert last in ops;
      var clocks := ClocksOf(rest, key);
      if last.Check? && last.key == key {
        assert (clocks + [last.now])[..|clocks|] == clocks;
      } else {
        assert ClocksOf(ops, key) == clocks;
      }
    }
  }

  /** Hence every answer `check` gives for a key is the decision of the window rule on that key's own
      clock values: other keys and the queries made in between do not matter. */
  lemma OtherKeysDoNotMatter(cfg: Config, m: Limiter, ops: seq<Op>, i: nat, forget: bool)
    requires i < |ops| && ops[i].Check? && ops[i].key !in m && KeepsBuckets(ops[..i], forget)
    requires cfg.burst >= 1
    ensures var clocks := ClocksOf(ops[..i + 1], ops[i].key);
            && clocks != []
            && (AnswerAt(cfg, m, ops, i, forget)
                == Admitted(WithinEveryWindow(cfg, clocks, Decisions(cfg, clocks), |clocks| - 1)))
  {
    var before, clocks := ClocksOf(ops[..i], ops[i].key), ClocksOf(ops[..i + 1], ops[i].key);
    assert ops[..i + 1][..i] == ops[..i];
    assert clocks[..|clocks| - 1] == before;
    BucketDependsOnItsKey(cfg, m, ops[..i], ops[i].key, forget);
    AdmittedIffWithinEveryWindow(cfg, clocks, |clocks| - 1);
  }

  // ---------- Clean-up ----------

  ghost predicate InOrder(ops: seq<Op>) {
    forall i, j | 0 <= i < j < |ops| :: ops[i].now <= ops[j].now
  }

  ghost predicate CleansWith(ops: seq<Op>, maxAge: real) {
    forall op <- ops | op.Cleanup? :: op.maxAge == maxAge
  }

  /** A bucket seen at or after its last refill, with no token owed. */
  ghost predicate Sound(b: BucketState, now: real) {
    b.lastRefill <= now && b.tokens >= 0.0
  }

  ghost predicate Full(cfg: Config, b: BucketState, now: real) {
    Available(cfg, b, now) == cfg.burst as real
  }

  /** The simulation: the forgetful limiter holds the reference's buckets, less some full ones. */
  ghost predicate Simulates(cfg: Config, now: real, forgetful: Limiter, reference: Limiter) {
    && (forall k | k in forgetful :: k in reference && forgetful[k] == reference[k])
    && (forall k | k in reference :: Sound(reference[k], now))
    && (forall k | k in reference && k !in forgetful :: Full(cfg, reference[k], now))
  }

  lemma FullStaysFull(cfg: Config, b: BucketState, now: real, later: real)
    requires cfg.rate > 0.0 && Full(cfg, b, now) && now <= later
    ensures Full(cfg, b, later)
  {
    var e, d := now - b.lastRefill, later - now;
    assert later - b.lastRefill == e + d;
    assert (e + d) * cfg.rate == e * cfg.rate + d * cfg.rate;
    assert d * cfg.rate >= 0.0;
  }

  lemma TimePasses(cfg: Config, now: real, later: real, f: Limiter, g: Limiter)
    requires cfg.rate > 0.0 && now <= later && Simulates(cfg, now, f, g)
    ensures Simulates(cfg, later, f, g)
  {
    forall k | k in g && k !in f
      ensures Full(cfg, g[k], later)
    {
      FullStaysFull(cfg, g[k], now, later);
    }
  }

  lemma StaleIsFull(cfg: Config, b: BucketState, now: real, maxAge: real)
    requires cfg.burst >= 1 && cfg.rate > 0.0 && cfg.rate * maxAge >= cfg.burst as real
    requires Sound(b, now) && now - b.lastRefill > maxAge
    ensures Full(cfg, b, now)
  {
    var e := now - b.lastRefill;
    assert (e - maxAge) * cfg.rate > 0.0;
    assert (e - maxAge) * cfg.rate == e * cfg.rate - cfg.rate * maxAge;
  }

  lemma CheckedIsSound(cfg: Config, b: Option<BucketState>, now: real)
    requires cfg.burst >= 1 && cfg.rate > 0.0
    requires b.Some? ==> Sound(b.value, now)
    ensures Sound(CheckBucket(cfg, b, now).0, now)
  {
    if b.Some? {
      assert (now - b.value.lastRefill) * cfg.rate >= 0.0;
    }
  }

  /** A full bucket and a missing one answer alike and are alike after a check. */
  lemma FullIsLikeMissing(cfg: Config, b: BucketState, now: real)
    requires cfg.burst >= 1 && Full(cfg, b, now)
    ensures CheckBucket(cfg, Some(b), now) == CheckBucket(cfg, None, now)
    ensures TokenBucket.Remaining(cfg, Some(b), now) == TokenBucket.Remaining(cfg, None, now)
    ensures TokenBucket.RetryAfter(cfg, Some(b), now) == TokenBucket.RetryAfter(cfg, None, now)
  {
    assert (cfg.burst as real).Floor == cfg.burst;
  }

  lemma SimulationStep(cfg: Config, op: Op, f: Limiter, g: Limiter)
    requires cfg.burst >= 1 && cfg.rate > 0.0
    requires op.Cleanup? ==> cfg.rate * op.maxAge >= cfg.burst as real
    requires Simulates(cfg, op.now, f, g)
    ensures Apply(cfg, f, op, true).1 == Apply(cfg, g, op, false).1
    ensures Simulates(cfg, op.now, Apply(cfg, f, op, true).0, Apply(cfg, g, op, false).0)
  {
    match op {
      case Cleanup(now, maxAge) =>
        forall k | k in Stale(f, now, maxAge)
          ensures Full(cfg, g[k], now)
        {
          StaleIsFull(cfg, g[k], now, maxAge);
        }
      case Reset(_) =>
      case Check(now, key) =>
        if key in g && key !in f {
          FullIsLikeMissing(cfg, g[key], now);
        }
        CheckedIsSound(cfg, Lookup(g, key), now);
      case _ =>
        if op.key in g && op.key !in f {
          FullIsLikeMissing(cfg, g[op.key], op.now);
        }
    }
  }

  lemma SimulationToNext(cfg: Config, maxAge: real, op: Op, later: real, f: Limiter, g: Limiter)
    requires cfg.burst >= 1 && cfg.rate > 0.0 && cfg.rate * maxAge >= cfg.burst as real
    requires op.Cleanup? ==> op.maxAge == maxAge
    requires op.now <= later && Simulates(cfg, op.now, f, g)
    ensures Simulates(cfg, later, Apply(cfg, f, op, true).0, Apply(cfg, g, op, false).0)
  {
    SimulationStep(cfg, op, f, g);
    TimePasses(cfg, op.now, later, Apply(cfg, f, op, true).0, Apply(cfg, g, op, false).0);
  }

  lemma {:induction false} SimulationOfRun(cfg: Config, maxAge: real, ops: seq<Op>, n: nat)
    requires cfg.burst >= 1 && cfg.rate > 0.0 && cfg.rate * maxAge >= cfg.burst as real
    requires InOrder(ops) && CleansWith(ops, maxAge) && n < |ops|
    ensures Simulates(cfg, ops[n].now, StateAfter(cfg, map[], ops[..n], true), StateAfter(cfg, map[], ops[..n], false))
  {
    if n > 0 {
      var k := n - 1;
      SimulationOfRun(cfg, maxAge, ops, k);
      StateAfterStep(cfg, map[], ops, k, true);
      StateAfterStep(cfg, map[], ops, k, false);
      assert ops[k] in ops;
      var f, g := StateAfter(cfg, map[], ops[..k], true), StateAfter(cfg, map[], ops[..k], false);
      SimulationToNext(cfg, maxAge, ops[k], ops[n].now, f, g);
    }
  }

  /** No answer of any in-order run that cleans with `maxAge` differs from the answer of a limiter that
      never forgets a bucket. */
  ghost predicate CleanupInvisible(cfg: Config, maxAge: real) {
    forall ops: seq<Op>, i: nat | InOrder(ops) && CleansWith(ops, maxAge) && i < |ops| ::
      AnswerAt(cfg, map[], ops, i, true) == AnswerAt(cfg, map[], ops, i, false)
  }

  lemma CleanupInvisibleIfAged(cfg: Config, maxAge: real, ops: seq<Op>, i: nat)
    requires cfg.burst >= 1 && cfg.rate > 0.0 && cfg.rate * maxAge >= cfg.burst as real
    requires InOrder(ops) && CleansWith(ops, maxAge) && i < |ops|
    ensures AnswerAt(cfg, map[], ops, i, true) == AnswerAt(cfg, map[], ops, i, false)
  {
    SimulationOfRun(cfg, maxAge, ops, i);
    assert ops[i] in ops;
    SimulationStep(cfg, ops[i], StateAfter(cfg, map[], ops[..i], true), StateAfter(cfg, map[], ops[..i], false));
  }

  /** `n` checks of one key at time 0. */
  function Burst(n: nat): seq<Op> {
    seq(n, _ => Check(0.0, "k"))
  }

  lemma {:induction false} BurstDrains(cfg: Config, n: nat, forget: bool)
    requires 1 <= n && (n == 1 || n <= cfg.burst)
    ensures StateAfter(cfg, map[], Burst(n), forget) == map["k" := BucketState((cfg.burst - n) as real, 0.0)]
  {
    assert Burst(n)[..n - 1] == Burst(n - 1);
    if n > 1 {
      BurstDrains(cfg, n - 1, forget);
      assert (0.0 - 0.0) * cfg.rate == 0.0;
    } else {
      assert Burst(0) == [];
    }
  }

  /** A drained bucket, cleaned away at time e, then one last query. */
  lemma CleanedBurst(cfg: Config, n: nat, e: real, maxAge: real, last: Op)
    requires 1 <= n && (n == 1 || n <= cfg.burst)
    requires 0.0 <= e && maxAge < e && last.now == e && !last.Cleanup?
    ensures var ops := Burst(n) + [Cleanup(e, maxAge), last];
            && InOrder(ops) && CleansWith(ops, maxAge)
            && AnswerAt(cfg, map[], ops, n + 1, true) == Apply(cfg, map[], last, true).1
            && AnswerAt(cfg, map[], ops, n + 1, false)
               == Apply(cfg, map["k" := BucketState((cfg.burst - n) as real, 0.0)], last, false).1
  {
    var ops := Burst(n) + [Cleanup(e, maxAge), last];
    assert ops[..n] == Burst(n);
    BurstDrains(cfg, n, true);
    BurstDrains(cfg, n, false);
    StateAfterStep(cfg, map[], ops, n, true);
    StateAfterStep(cfg, map[], ops, n, false);
    var drained := StateAfter(cfg, map[], Burst(n), true);
    assert Stale(drained, e, maxAge) == {"k"};
    assert drained - {"k"} == map[];
  }

  lemma CleanupVisibleIfBurstBelowOne(cfg: Config, maxAge: real)
    requires cfg.burst < 1
    ensures !CleanupInvisible(cfg, maxAge)
  {
    var e := if maxAge < 0.0 then 1.0 else maxAge + 1.0;
    var ops := Burst(1) + [Cleanup(e, maxAge), Check(e, "k")];
    CleanedBurst(cfg, 1, e, maxAge, Check(e, "k"));
    assert AnswerAt(cfg, map[], ops, 2, true) != AnswerAt(cfg, map[], ops, 2, false);
  }

  lemma CleanupVisibleIfYoung(cfg: Config, maxAge: real)
    requires cfg.burst >= 1 && (cfg.rate <= 0.0 || cfg.rate * maxAge < cfg.burst as real)
    ensures !CleanupInvisible(cfg, maxAge)
  {
    var e := PartialRefill(cfg, maxAge);
    var n, last := cfg.burst, Remaining(e, "k");
    var ops := Burst(n) + [Cleanup(e, maxAge), last];
    CleanedBurst(cfg, n, e, maxAge, last);
    assert (e - 0.0) * cfg.rate == e * cfg.rate;
    assert AnswerAt(cfg, map[], ops, n + 1, true) == Tokens(cfg.burst);
    assert AnswerAt(cfg, map[], ops, n + 1, true) != AnswerAt(cfg, map[], ops, n + 1, false);
  }

  /** A moment when an empty bucket is already stale but not yet full. */
  lemma PartialRefill(cfg: Config, maxAge: real) returns (e: real)
    requires cfg.burst >= 1 && (cfg.rate <= 0.0 || cfg.rate * maxAge < cfg.burst as real)
    ensures 0.0 <= e && maxAge < e && e * cfg.rate < cfg.burst as real
  {
    if cfg.rate <= 0.0 {
      e := if maxAge < 0.0 then 1.0 else maxAge + 1.0;
      assert e * cfg.rate <= 0.0;
    } else if maxAge < 0.0 {
      e := 0.0;
    } else {
      var full := cfg.burst as real / cfg.rate;
      assert full * cfg.rate == cfg.burst as real;
      assert (full - maxAge) * cfg.rate == full * cfg.rate - cfg.rate * maxAge;
      assert full > maxAge;
      e := (maxAge + full) / 2.0;
      assert (full - e) * cfg.rate > 0.0;
      assert (full - e) * cfg.rate == full * cfg.rate - e * cfg.rate;
    }
  }

  /** Forgetting stale buckets is invisible for exactly the configurations in which a bucket that is old
      enough to be dropped must have refilled completely. */
  lemma CleanupInvisibleIff(cfg: Config, maxAge: real)
    ensures CleanupInvisible(cfg, maxAge)
            <==> cfg.burst >= 1 && cfg.rate > 0.0 && cfg.rate * maxAge >= cfg.burst as real
  {
    if cfg.burst < 1 {
      CleanupVisibleIfBurstBelowOne(cfg, maxAge);
    } else if cfg.rate <= 0.0 || cfg.rate * maxAge < cfg.burst as real {
      CleanupVisibleIfYoung(cfg, maxAge);
    } else {
      forall ops: seq<Op>, i: nat | InOrder(ops) && CleansWith(ops, maxAge) && i < |ops|
        ensures AnswerAt(cfg, map[], ops, i, true) == AnswerAt(cfg, map[], ops, i, false)
      {
        CleanupInvisibleIfAged(cfg, maxAge, ops, i);
      }
    }
  }

  /** Put together: a limiter that cleans up at will still decides every check by the window rule over
      all the checks ever made on that key. */
  lemma CleanedLimiterObeysRule(cfg: Config, maxAge: real, ops: seq<Op>, i: nat)
    requires cfg.burst >= 1 && cfg.rate > 0.0 && cfg.rate * maxAge >= cfg.burst as real
    requires InOrder(ops) && CleansWith(ops, maxAge) && (forall op <- ops :: !op.Reset?)
    requires i < |ops| && ops[i].Check?
    ensures var clocks := ClocksOf(ops[..i + 1], ops[i].key);
            && clocks != []
            && (AnswerAt(cfg, map[], ops, i, true)
                == Admitted(WithinEveryWindow(cfg, clocks, Decisions(cfg, clocks), |clocks| - 1)))
  {
    CleanupInvisibleIfAged(cfg, maxAge, ops, i);
    OtherKeysDoNotMatter(cfg, map[], ops, i, false);
  }
}
