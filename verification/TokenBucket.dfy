/** The meaning of the token bucket of tftpos/rate_limit.py, for one key and for a whole limiter.
    Every operation carries the clock value it read; unless a lemma asks for it, clock values may
    come in any order, because `check` reads the clock before it takes the lock. */
module TokenBucket {
  import opened Common

  /** `rate` is in tokens per second. Nothing restricts either field, as in the source. */
  datatype Config = Config(rate: real, burst: int)

  datatype BucketState = BucketState(tokens: real, lastRefill: real)

  function Min(a: real, b: real): real {
    if a <= b then a else b
  }

  /** Python's `int(x)`: truncation toward zero. */
  function Trunc(x: real): int {
    if x >= 0.0 then x.Floor else -((-x).Floor)
  }

  lemma TruncTowardZero(x: real)
    ensures x >= 0.0 ==> Trunc(x) as real <= x < Trunc(x) as real + 1.0
    ensures x < 0.0 ==> Trunc(x) as real - 1.0 < x <= Trunc(x) as real <= 0.0
  {
    if x < 0.0 {
      assert (-x).Floor as real <= -x < (-x).Floor as real + 1.0;
    }
  }

  /** Tokens in a bucket once the time elapsed since its last refill is credited. */
  function Available(cfg: Config, b: BucketState, now: real): real {
    Min(cfg.burst as real, b.tokens + (now - b.lastRefill) * cfg.rate)
  }

  /** One `check` on one bucket: the new bucket and whether the request is admitted. */
  function CheckBucket(cfg: Config, b: Option<BucketState>, now: real): (BucketState, bool) {
    match b
    case None => (BucketState((cfg.burst - 1) as real, now), true)
    case Some(s) =>
      var available := Available(cfg, s, now);
      if available >= 1.0 then (BucketState(available - 1.0, now), true)
      else (BucketState(available, now), false)
  }

  // ---------- One key: a run of checks given by the clock values they read ----------

  function BucketAfter(cfg: Config, times: seq<real>): Option<BucketState> {
    if times == [] then None
    else Some(CheckBucket(cfg, BucketAfter(cfg, times[..|times| - 1]), times[|times| - 1]).0)
  }

  function Admits(cfg: Config, times: seq<real>, i: nat): bool
    requires i < |times|
  {
    CheckBucket(cfg, BucketAfter(cfg, times[..i]), times[i]).1
  }

  function Decisions(cfg: Config, times: seq<real>): seq<bool> {
    seq(|times|, i requires 0 <= i < |times| => Admits(cfg, times, i))
  }

  /** How many of the decisions lo, lo + 1, ..., hi - 1 admit. */
  function Count(ds: seq<bool>, lo: nat, hi: nat): nat
    requires lo <= hi <= |ds|
    decreases hi - lo
  {
    if lo == hi then 0 else Count(ds, lo, hi - 1) + (if ds[hi - 1] then 1 else 0)
  }

  /** The declarative rule: for every window that starts at check j and ends at check i, the
      admissions already made in it, and this one, stay within burst + rate * elapsed. */
  ghost predicate WithinEveryWindow(cfg: Config, times: seq<real>, ds: seq<bool>, i: nat)
    requires i < |times| == |ds|
  {
    forall j: nat | j <= i :: Fits(cfg, times, ds, j, i)
  }

  ghost predicate Fits(cfg: Config, times: seq<real>, ds: seq<bool>, j: nat, i: nat)
    requires j <= i < |times| == |ds|
  {
    (Count(ds, j, i) + 1) as real <= Allowance(cfg, times, j, i)
  }

  function Allowance(cfg: Config, times: seq<real>, j: nat, i: nat): real
    requires j <= i < |times|
  {
    cfg.burst as real + (times[i] - times[j]) * cfg.rate
  }

  lemma {:induction false} CountSplit(ds: seq<bool>, lo: nat, mid: nat, hi: nat)
    requires lo <= mid <= hi <= |ds|
    ensures Count(ds, lo, hi) == Count(ds, lo, mid) + Count(ds, mid, hi)
    decreases hi
  {
    if mid < hi {
      CountSplit(ds, lo, mid, hi - 1);
    }
  }

  /** Tokens that check i finds, before it spends one. */
  function Found(cfg: Config, times: seq<real>, i: nat): real
    requires i < |times|
  {
    match BucketAfter(cfg, times[..i])
    case None => cfg.burst as real
    case Some(b) => Available(cfg, b, times[i])
  }

  lemma AllowanceStep(cfg: Config, times: seq<real>, j: nat, i: nat)
    requires j <= i && i + 1 < |times|
    ensures Allowance(cfg, times, j, i + 1) == Allowance(cfg, times, j, i) + (times[i + 1] - times[i]) * cfg.rate
  {
    var a, b, r := times[i] - times[j], times[i + 1] - times[i], cfg.rate;
    assert (a + b) * r == a * r + b * r;
  }

  lemma FoundStep(cfg: Config, times: seq<real>, i: nat)
    requires i + 1 < |times|
    ensures Found(cfg, times, i + 1)
            == Min(cfg.burst as real,
                   Found(cfg, times, i) - (if Decisions(cfg, times)[i] then 1.0 else 0.0)
                   + (times[i + 1] - times[i]) * cfg.rate)
  {
    var prefix := times[..i + 1];
    assert prefix[..|prefix| - 1] == times[..i];
  }

  /** What window j..i leaves for check i. */
  function Left(cfg: Config, times: seq<real>, ds: seq<bool>, j: nat, i: nat): real
    requires j <= i < |times| == |ds|
  {
    Allowance(cfg, times, j, i) - Count(ds, j, i) as real
  }

  lemma LeftStep(cfg: Config, times: seq<real>, ds: seq<bool>, j: nat, i: nat)
    requires j <= i && i + 1 < |times| == |ds|
    ensures Left(cfg, times, ds, j, i + 1)
            == Left(cfg, times, ds, j, i) - (if ds[i] then 1.0 else 0.0) + (times[i + 1] - times[i]) * cfg.rate
  {
    AllowanceStep(cfg, times, j, i);
    assert Count(ds, j, i + 1) == Count(ds, j, i) + (if ds[i] then 1 else 0);
  }

  /** The tokens found by check i are the minimum, over all windows ending at i, of what the window
      leaves. The cap enters as the window that starts at i. */
  ghost predicate IsWindowMinimum(cfg: Config, times: seq<real>, ds: seq<bool>, i: nat, x: real)
    requires i < |times| == |ds|
  {
    && (exists j: nat :: j <= i && x == Left(cfg, times, ds, j, i))
    && (forall j: nat | j <= i :: x <= Left(cfg, times, ds, j, i))
  }

  lemma WindowMinimumStep(cfg: Config, times: seq<real>, ds: seq<bool>, i: nat, x: real, y: real)
    requires i + 1 < |times| == |ds|
    requires IsWindowMinimum(cfg, times, ds, i, x)
    requires y == Min(cfg.burst as real, x - (if ds[i] then 1.0 else 0.0) + (times[i + 1] - times[i]) * cfg.rate)
    ensures IsWindowMinimum(cfg, times, ds, i + 1, y)
  {
    var refill, k := (times[i + 1] - times[i]) * cfg.rate, i + 1;
    forall j: nat | j <= i
      ensures Left(cfg, times, ds, j, k) == Left(cfg, times, ds, j, i) - (if ds[i] then 1.0 else 0.0) + refill
    {
      LeftStep(cfg, times, ds, j, i);
    }
    LeftAtStart(cfg, times, ds, k);
    var w: nat :| w <= i && x == Left(cfg, times, ds, w, i);
    var w' := if y == cfg.burst as real then k else w;
    assert y == Left(cfg, times, ds, w', k);
  }

  lemma LeftAtStart(cfg: Config, times: seq<real>, ds: seq<bool>, i: nat)
    requires i < |times| == |ds|
    ensures Left(cfg, times, ds, i, i) == cfg.burst as real
  {
  }

  lemma {:induction false} FoundIsWindowMinimum(cfg: Config, times: seq<real>, ds: seq<bool>, i: nat)
    requires i < |times| && ds == Decisions(cfg, times)
    ensures IsWindowMinimum(cfg, times, ds, i, Found(cfg, times, i))
  {
    if i == 0 {
      FoundFirst(cfg, times);
      LeftAtStart(cfg, times, ds, 0);
    } else {
      var k := i - 1;
      FoundIsWindowMinimum(cfg, times, ds, k);
      var x, y := Found(cfg, times, k), Found(cfg, times, i);
      assert y == Min(cfg.burst as real, x - (if ds[k] then 1.0 else 0.0) + (times[k + 1] - times[k]) * cfg.rate) by {
        FoundStep(cfg, times, k);
      }
      WindowMinimumStep(cfg, times, ds, k, x, y);
    }
  }

  lemma FoundFirst(cfg: Config, times: seq<real>)
    requires times != []
    ensures Found(cfg, times, 0) == cfg.burst as real
  {
    assert times[..0] == [];
  }

  lemma AdmitsIffFound(cfg: Config, times: seq<real>, i: nat)
    requires i < |times|
    requires i > 0 || cfg.burst >= 1
    ensures Decisions(cfg, times)[i] <==> Found(cfg, times, i) >= 1.0
  {
    assert i > 0 ==> times[..i] != [];
    assert i == 0 ==> times[..i] == [];
  }

  /** Every check after the one that created the bucket is admitted exactly when the rule allows it. */
  lemma AdmittedIffWithinEveryWindow(cfg: Config, times: seq<real>, i: nat)
    requires i < |times|
    requires i > 0 || cfg.burst >= 1
    ensures Decisions(cfg, times)[i] <==> WithinEveryWindow(cfg, times, Decisions(cfg, times), i)
  {
    var ds := Decisions(cfg, times);
    FoundIsWindowMinimum(cfg, times, ds, i);
    AdmitsIffFound(cfg, times, i);
    forall j: nat | j <= i
      ensures Fits(cfg, times, ds, j, i) <==> Left(cfg, times, ds, j, i) >= 1.0
    {
    }
    if !ds[i] {
      var w: nat :| w <= i && Found(cfg, times, i) == Left(cfg, times, ds, w, i);
      assert !Fits(cfg, times, ds, w, i);
    }
  }

  /** The rule holds of a whole run exactly when burst is at least one: with a smaller burst the
      check that creates the bucket is admitted although no window allows it. */
  lemma RuleHoldsIffBurstPositive(cfg: Config, times: seq<real>)
    requires times != []
    ensures (forall i: nat | i < |times| ::
               Decisions(cfg, times)[i] <==> WithinEveryWindow(cfg, times, Decisions(cfg, times), i))
            <==> cfg.burst >= 1
  {
    var ds := Decisions(cfg, times);
    if cfg.burst >= 1 {
      forall i: nat | i < |times|
        ensures ds[i] <==> WithinEveryWindow(cfg, times, ds, i)
      {
        AdmittedIffWithinEveryWindow(cfg, times, i);
      }
    } else {
      assert times[..0] == [];
      assert ds[0];
      assert !Fits(cfg, times, ds, 0, 0);
      assert !WithinEveryWindow(cfg, times, ds, 0);
    }
  }

  ghost predicate Ordered(times: seq<real>) {
    forall i, j | 0 <= i < j < |times| :: times[i] <= times[j]
  }

  /** Under ordered clocks no window of a run, wherever it ends, admits more than burst + rate * length. */
  lemma {:induction false} NoWindowExceeds(cfg: Config, times: seq<real>, j: nat, i: nat)
    requires cfg.burst >= 1 && cfg.rate >= 0.0 && Ordered(times)
    requires j <= i < |times|
    ensures Count(Decisions(cfg, times), j, i + 1) as real <= Allowance(cfg, times, j, i)
    decreases i
  {
    var ds := Decisions(cfg, times);
    AdmittedIffWithinEveryWindow(cfg, times, i);
    assert Count(ds, j, i + 1) == Count(ds, j, i) + (if ds[i] then 1 else 0);
    if ds[i] {
      assert Fits(cfg, times, ds, j, i);
    } else if j < i {
      NoWindowExceeds(cfg, times, j, i - 1);
      AllowanceGrows(cfg, times, j, i - 1);
    } else {
      LeftAtStart(cfg, times, ds, i);
    }
  }

  lemma AllowanceGrows(cfg: Config, times: seq<real>, j: nat, i: nat)
    requires cfg.rate >= 0.0 && Ordered(times)
    requires j <= i && i + 1 < |times|
    ensures Allowance(cfg, times, j, i) <= Allowance(cfg, times, j, i + 1)
  {
    AllowanceStep(cfg, times, j, i);
    var step := times[i + 1] - times[i];
    assert step >= 0.0;
    assert step * cfg.rate >= 0.0;
  }

  /** The limiter is the most permissive policy with the window bound: whatever decisions another
      policy takes on the same clock values, if each of its admissions respects every window then no
      prefix of its run holds more admissions than the limiter's. The clocks may be out of order. */
  lemma {:induction false} MostPermissive(cfg: Config, times: seq<real>, other: seq<bool>, n: nat)
    requires cfg.burst >= 1
    requires |other| == |times|
    requires forall i: nat | i < |times| && other[i] :: WithinEveryWindow(cfg, times, other, i)
    requires n <= |times|
    ensures Count(other, 0, n) <= Count(Decisions(cfg, times), 0, n)
    decreases n
  {
    var ds := Decisions(cfg, times);
    if n > 0 {
      var i := n - 1;
      MostPermissive(cfg, times, other, i);
      if other[i] && !ds[i] && Count(other, 0, i) == Count(ds, 0, i) {
        AdmittedIffWithinEveryWindow(cfg, times, i);
        var j: nat :| j <= i && !Fits(cfg, times, ds, j, i);
        assert Fits(cfg, times, other, j, i);
        CountSplit(ds, 0, j, i);
        CountSplit(other, 0, j, i);
        MostPermissive(cfg, times, other, j);
        assert false;
      }
    }
  }

  // ---------- Checks made from a given bucket ----------

  function Outcomes(cfg: Config, b: Option<BucketState>, times: seq<real>): (ds: seq<bool>)
    ensures |ds| == |times|
    decreases |times|
  {
    if times == [] then [] else
      var (s, ok) := CheckBucket(cfg, b, times[0]);
      [ok] + Outcomes(cfg, Some(s), times[1..])
  }

  function AfterAll(cfg: Config, b: Option<BucketState>, times: seq<real>): Option<BucketState>
    decreases |times|
  {
    if times == [] then b else AfterAll(cfg, Some(CheckBucket(cfg, b, times[0]).0), times[1..])
  }

  function Remaining(cfg: Config, b: Option<BucketState>, now: real): int {
    match b
    case None => cfg.burst
    case Some(s) => Trunc(Available(cfg, s, now))
  }

  function RetryAfter(cfg: Config, b: Option<BucketState>, now: real): real {
    match b
    case None => 0.0
    case Some(s) =>
      var available := Available(cfg, s, now);
      if available >= 1.0 || cfg.rate <= 0.0 then 0.0 else (1.0 - available) / cfg.rate
  }

  function Repeat(now: real, m: nat): seq<real> {
    seq(m, _ => now)
  }

  lemma {:induction false} RemainingOfBucket(cfg: Config, b: BucketState, now: real, m: nat, i: nat)
    requires i < m
    ensures Outcomes(cfg, Some(b), Repeat(now, m))[i] <==> i < Remaining(cfg, Some(b), now)
    decreases m
  {
    var next := CheckBucket(cfg, Some(b), now).0;
    assert Repeat(now, m)[1..] == Repeat(now, m - 1);
    assert (now - now) * cfg.rate == 0.0;
    assert Available(cfg, next, now) == next.tokens;
    if i > 0 {
      RemainingOfBucket(cfg, next, now, m - 1, i - 1);
    }
  }

  lemma RemainingOfNewBucket(cfg: Config, now: real)
    requires cfg.burst >= 1
    ensures Remaining(cfg, Some(BucketState((cfg.burst - 1) as real, now)), now) == cfg.burst - 1
  {
    var s := BucketState((cfg.burst - 1) as real, now);
    assert (now - now) * cfg.rate == 0.0;
    assert Available(cfg, s, now) == (cfg.burst - 1) as real >= 0.0;
    assert Trunc((cfg.burst - 1) as real) == cfg.burst - 1;
  }

  lemma RemainingOfKey(cfg: Config, b: Option<BucketState>, now: real, m: nat, i: nat)
    requires i < m
    requires b.Some? || cfg.burst >= 1
    ensures Outcomes(cfg, b, Repeat(now, m))[i] <==> i < Remaining(cfg, b, now)
  {
    match b {
      case Some(s) =>
        RemainingOfBucket(cfg, s, now, m, i);
      case None =>
        var s := BucketState((cfg.burst - 1) as real, now);
        var rest := Repeat(now, m - 1);
        assert Repeat(now, m)[1..] == rest;
        assert Outcomes(cfg, b, Repeat(now, m)) == [true] + Outcomes(cfg, Some(s), rest);
        if i > 0 {
          RemainingOfNewBucket(cfg, now);
          RemainingOfBucket(cfg, s, now, m - 1, i - 1);
        }
    }
  }

  ghost predicate CountsBackToBack(cfg: Config, b: Option<BucketState>, now: real, n: int) {
    forall m: nat, i: nat | i < m :: Outcomes(cfg, b, Repeat(now, m))[i] <==> i < n
  }

  /** `remaining` counts exactly the back-to-back checks that would be admitted at that instant, except
      for a key without a bucket when burst is below one: `check` admits it whatever burst is. */
  lemma RemainingIsExact(cfg: Config, b: Option<BucketState>, now: real)
    ensures CountsBackToBack(cfg, b, now, Remaining(cfg, b, now)) <==> b.Some? || cfg.burst >= 1
  {
    var n := Remaining(cfg, b, now);
    if b.Some? || cfg.burst >= 1 {
      forall m: nat, i: nat | i < m
        ensures Outcomes(cfg, b, Repeat(now, m))[i] <==> i < n
      {
        RemainingOfKey(cfg, b, now, m, i);
      }
    } else {
      assert Repeat(now, 1)[0] == now;
      assert Outcomes(cfg, b, Repeat(now, 1))[0];
      assert !(0 < n);
    }
  }

  /** A check made after the time `retry_after` announced is admitted, unless the bucket is short of
      tokens and can never be refilled to one: then the announced time is wrong. */
  lemma RetryAfterSucceeds(cfg: Config, b: Option<BucketState>, now: real)
    ensures CheckBucket(cfg, b, now + RetryAfter(cfg, b, now)).1
            <==> b.None? || Available(cfg, b.value, now) >= 1.0 || (cfg.rate > 0.0 && cfg.burst >= 1)
  {
    if b.Some? && Available(cfg, b.value, now) < 1.0 && cfg.rate > 0.0 {
      var d := RetryAfter(cfg, b, now);
      assert d * cfg.rate == 1.0 - Available(cfg, b.value, now);
      AvailableLater(cfg, b.value, now, d);
    }
  }

  lemma AvailableLater(cfg: Config, b: BucketState, now: real, d: real)
    ensures Available(cfg, b, now + d)
            == Min(cfg.burst as real, b.tokens + (now - b.lastRefill) * cfg.rate + d * cfg.rate)
  {
    var e := now - b.lastRefill;
    assert now + d - b.lastRefill == e + d;
    assert (e + d) * cfg.rate == e * cfg.rate + d * cfg.rate;
  }

  /** The uncapped level of a bucket at `now`. */
  function Level(cfg: Config, b: BucketState, now: real): real {
    b.tokens + (now - b.lastRefill) * cfg.rate
  }

  /** A denied check moves tokens and last_refill together, so the level at any other time is unchanged. */
  lemma DeniedCheckKeepsLevel(cfg: Config, b: BucketState, t: real, now: real)
    requires cfg.burst >= 1 && !CheckBucket(cfg, Some(b), t).1
    ensures Level(cfg, CheckBucket(cfg, Some(b), t).0, now) == Level(cfg, b, now)
  {
    var e, f := t - b.lastRefill, now - t;
    assert now - b.lastRefill == e + f;
    assert (e + f) * cfg.rate == e * cfg.rate + f * cfg.rate;
  }

  /** A bucket that can never hold one token denies everything. */
  lemma {:induction false} SmallBurstDeniesAll(cfg: Config, b: BucketState, times: seq<real>)
    requires cfg.burst < 1
    ensures forall i | 0 <= i < |times| :: !Outcomes(cfg, Some(b), times)[i]
    ensures AfterAll(cfg, Some(b), times).Some?
    decreases |times|
  {
    if times != [] {
      SmallBurstDeniesAll(cfg, CheckBucket(cfg, Some(b), times[0]).0, times[1..]);
    }
  }

  /** Polling does not postpone admission: however often, and in whatever clock order, the key is checked
      before the announced time, every such check is denied, and a check at that time is admitted if and
      only if a bucket can hold a token at all. */
  lemma {:induction false} PollingUntilRetryAfter(cfg: Config, b: BucketState, now: real, polls: seq<real>)
    requires forall i | 0 <= i < |polls| :: polls[i] < now + RetryAfter(cfg, Some(b), now)
    requires RetryAfter(cfg, Some(b), now) > 0.0
    ensures forall i | 0 <= i < |polls| :: !Outcomes(cfg, Some(b), polls)[i]
    ensures CheckBucket(cfg, AfterAll(cfg, Some(b), polls), now + RetryAfter(cfg, Some(b), now)).1 <==> cfg.burst >= 1
    decreases |polls|
  {
    if cfg.burst < 1 {
      SmallBurstDeniesAll(cfg, b, polls);
    } else if polls == [] {
      RetryAfterSucceeds(cfg, Some(b), now);
    } else {
      var t, d := polls[0], RetryAfter(cfg, Some(b), now);
      EarlyCheckIsDenied(cfg, b, now, t);
      var next := CheckBucket(cfg, Some(b), t).0;
      DeniedCheckKeepsLevel(cfg, b, t, now);
      assert RetryAfter(cfg, Some(next), now) == d;
      PollingUntilRetryAfter(cfg, next, now, polls[1..]);
    }
  }

  lemma EarlyCheckIsDenied(cfg: Config, b: BucketState, now: real, t: real)
    requires RetryAfter(cfg, Some(b), now) > 0.0 && t < now + RetryAfter(cfg, Some(b), now)
    ensures !CheckBucket(cfg, Some(b), t).1
  {
    var d, e := RetryAfter(cfg, Some(b), now), t - now;
    assert d * cfg.rate == 1.0 - Available(cfg, b, now);
    AvailableLater(cfg, b, now, e);
    assert now + e == t;
    assert (d - e) * cfg.rate > 0.0;
    assert (d - e) * cfg.rate == d * cfg.rate - e * cfg.rate;
  }
}
