/** Properties of whole runs of tracker operations (tftpos/state.py), with saves that may fail. */
module TrackerRuns {
  import opened Common
  import opened Records
  import opened Tracker

  function Run(t: Tracked, ops: seq<Op>): Tracked {
    if ops == [] then t else Apply(Run(t, ops[..|ops| - 1]), ops[|ops| - 1])
  }

  // ---------- What one operation writes ----------

  /** Memory and backend hold the same for k. */
  ghost predicate SameFor(m: Store, m': Store, k: string) {
    (k in m <==> k in m') && (k in m ==> m[k] == m'[k])
  }

  /** The operation writes the record of k, or drops it. */
  predicate Touches(t: Tracked, op: Op, k: string) {
    match op
    case Register(_, mac, _, _, _, _) => Lower(mac) == k
    case Transition(_, mac, _, _, _) => Lower(mac) == k && k in t.records
    case SetNetboot(mac, _, _) => Lower(mac) == k && k in t.records
    case Clear(_) => true
  }

  lemma OperationWrites(t: Tracked, op: Op, k: string)
    ensures var t' := Apply(t, op);
            && (Touches(t, op, k) && op.saved ==> SameFor(t'.records, t'.stored, k))
            && (!(Touches(t, op, k) && op.saved) ==> SameFor(t.stored, t'.stored, k))
            && (!Touches(t, op, k) ==> SameFor(t.records, t'.records, k))
  {
  }

  // ---------- Histories ----------

  /** The time of the last COMPLETE entry. */
  function LastComplete(history: seq<Entry>): Option<real> {
    if history == [] then None
    else if history[|history| - 1].state == Complete then Some(history[|history| - 1].time)
    else LastComplete(history[..|history| - 1])
  }

  /** The history of a record tells its state and its three times. */
  ghost predicate HistoryTells(r: Record) {
    && r.history != []
    && r.history[0].state == Registered && r.startedAt == Some(r.history[0].time)
    && r.history[|r.history| - 1].state == r.state && r.updatedAt == Some(r.history[|r.history| - 1].time)
    && r.completedAt == LastComplete(r.history)
  }

  lemma TransitionTells(r: Record, now: real, newState: ProvisionState, error: Option<string>)
    requires HistoryTells(r)
    ensures HistoryTells(Transitioned(r, now, newState, error))
  {
    var h := Transitioned(r, now, newState, error).history;
    assert h[..|h| - 1] == r.history;
  }

  ghost predicate HistoriesTell(m: Store) {
    Keyed(m) && forall k | k in m :: HistoryTells(m[k])
  }

  lemma ApplyKeepsHistories(t: Tracked, op: Op)
    requires HistoriesTell(t.records)
    ensures HistoriesTell(Apply(t, op).records)
  {
    var t' := Apply(t, op);
    forall k | k in t'.records
      ensures HistoryTells(t'.records[k]) && Lower(t'.records[k].mac) == k
    {
      OperationWrites(t, op, k);
      if Touches(t, op, k) {
        TouchedHistoryTells(t, op, k);
      }
    }
  }

  lemma TouchedHistoryTells(t: Tracked, op: Op, k: string)
    requires HistoriesTell(t.records) && Touches(t, op, k) && k in Apply(t, op).records
    ensures HistoryTells(Apply(t, op).records[k]) && Lower(Apply(t, op).records[k].mac) == k
  {
    if op.Register? {
      assert [Entry(Registered, op.now)][..0] == [];
    } else {
      assert HistoryTells(t.records[k]) && Lower(t.records[k].mac) == k;
      if op.Transition? {
        TransitionTells(t.records[k], op.now, op.newState, op.error);
      }
    }
  }

  lemma ApplyKeepsStoredHistories(t: Tracked, op: Op)
    requires HistoriesTell(t.stored) && HistoriesTell(Apply(t, op).records)
    ensures HistoriesTell(Apply(t, op).stored)
  {
    var t' := Apply(t, op);
    forall k | k in t'.stored
      ensures HistoryTells(t'.stored[k]) && Lower(t'.stored[k].mac) == k
    {
      OperationWrites(t, op, k);
    }
  }

  /** From any tracker whose histories tell, such as an empty one, every run leads to one. */
  lemma {:induction false} EveryHistoryTells(t: Tracked, ops: seq<Op>)
    requires HistoriesTell(t.records)
    ensures HistoriesTell(Run(t, ops).records)
    decreases |ops|
  {
    if ops != [] {
      EveryHistoryTells(t, ops[..|ops| - 1]);
      ApplyKeepsHistories(Run(t, ops[..|ops| - 1]), ops[|ops| - 1]);
    }
  }

  /** So does what the backend holds: each record in it was in memory once. */
  lemma {:induction false} EveryStoredHistoryTells(t: Tracked, ops: seq<Op>)
    requires HistoriesTell(t.records) && HistoriesTell(t.stored)
    ensures HistoriesTell(Run(t, ops).stored)
    decreases |ops|
  {
    if ops != [] {
      EveryStoredHistoryTells(t, ops[..|ops| - 1]);
      EveryHistoryTells(t, ops);
      ApplyKeepsStoredHistories(Run(t, ops[..|ops| - 1]), ops[|ops| - 1]);
    }
  }

  /** A restart keeps it: the store loaded from a backend agrees with the one written to it. */
  lemma {:induction false} AgreeingHistoriesTell(written: Store, loaded: Store)
    requires HistoriesTell(written) && Keyed(loaded) && Agree(written, loaded)
    ensures HistoriesTell(loaded)
  {
    forall k | k in loaded
      ensures HistoryTells(loaded[k])
    {
      var r := loaded[k];
      LowerIdempotent(r.mac);
      assert SameAnswer(Find(written, k), Find(loaded, k));
      assert Canonical(written[k]) == Canonical(r);
    }
  }

  /** Session i of one deployment: a tracker that starts with `starts[i]` and performs `sessions[i]`; each
      later one loads what the backend holds after the one before. */
  ghost predicate Restarts(starts: seq<Tracked>, sessions: seq<seq<Op>>) {
    && |starts| == |sessions|
    && forall i: nat | i + 1 < |starts| :: LoadedAfter(starts, sessions, i)
  }

  ghost predicate LoadedAfter(starts: seq<Tracked>, sessions: seq<seq<Op>>, i: nat)
    requires i + 1 < |starts| == |sessions|
  {
    && Keyed(starts[i + 1].records) && starts[i + 1].stored == starts[i + 1].records
    && Agree(Run(starts[i], sessions[i]).stored, starts[i + 1].records)
  }

  /** After any prefix of any session of a deployment that began empty, the histories tell, in memory and in
      the backend, whichever saves have failed. */
  lemma {:induction false} HistoriesTellAcrossRestarts(starts: seq<Tracked>, sessions: seq<seq<Op>>, i: nat, n: nat)
    requires Restarts(starts, sessions) && starts != []
    requires starts[0].records == map[] && starts[0].stored == map[]
    requires i < |sessions| && n <= |sessions[i]|
    ensures HistoriesTell(Run(starts[i], sessions[i][..n]).records)
    ensures HistoriesTell(Run(starts[i], sessions[i][..n]).stored)
    decreases i
  {
    if i > 0 {
      var full := sessions[i - 1];
      HistoriesTellAcrossRestarts(starts, sessions, i - 1, |full|);
      assert full[..|full|] == full;
      assert LoadedAfter(starts, sessions, i - 1);
      AgreeingHistoriesTell(Run(starts[i - 1], full).stored, starts[i].records);
    }
    EveryHistoryTells(starts[i], sessions[i][..n]);
    EveryStoredHistoryTells(starts[i], sessions[i][..n]);
  }

  /** Until the MAC is registered again or the tracker is cleared, a history only grows. */
  lemma {:induction false} HistoryOnlyGrows(t: Tracked, ops: seq<Op>, k: string)
    requires k in t.records
    requires forall op <- ops :: !op.Clear? && (op.Register? ==> Lower(op.mac) != k)
    ensures k in Run(t, ops).records
    ensures t.records[k].history <= Run(t, ops).records[k].history
    ensures t.records[k].startedAt == Run(t, ops).records[k].startedAt
  {
    if ops != [] {
      assert ops[|ops| - 1] in ops;
      HistoryOnlyGrows(t, ops[..|ops| - 1], k);
    }
  }

  /** The entries fired for one key, in order. */
  function FiredFor(fired: seq<Firing>, k: string): seq<Entry> {
    if fired == [] then []
    else
      var last := fired[|fired| - 1];
      FiredFor(fired[..|fired| - 1], k) + (if last.key == k then [last.entry] else [])
  }

  lemma FiredForSnoc(fired: seq<Firing>, f: Firing, k: string)
    ensures FiredFor(fired + [f], k) == FiredFor(fired, k) + (if f.key == k then [f.entry] else [])
  {
    assert (fired + [f])[..|fired|] == fired;
  }

  predicate Registers(op: Op, k: string) {
    op.Register? && Lower(op.mac) == k
  }

  /** The operation adds an entry to the history of k, or starts a new one. */
  predicate AddsEntry(t: Tracked, op: Op, k: string) {
    Registers(op, k) || (op.Transition? && Lower(op.mac) == k && k in t.records)
  }

  /** No operation from number n on registers k: what happens to k there belongs to its final record. */
  ghost predicate NotRegisteredFrom(ops: seq<Op>, k: string, n: nat) {
    forall m | n <= m < |ops| :: !Registers(ops[m], k)
  }

  /** If operation n adds an entry to the final history of k, its save did not fail. */
  ghost predicate SavedAt(t: Tracked, ops: seq<Op>, k: string, n: nat)
    requires n < |ops|
  {
    NotRegisteredFrom(ops, k, n + 1) && AddsEntry(Run(t, ops[..n]), ops[n], k) ==> ops[n].saved
  }

  ghost predicate AllSaved(t: Tracked, ops: seq<Op>, k: string) {
    forall n: nat | n < |ops| :: SavedAt(t, ops, k, n)
  }

  lemma NotRegisteredStep(ops: seq<Op>, k: string, n: nat)
    requires n < |ops| && !Registers(ops[|ops| - 1], k)
    ensures NotRegisteredFrom(ops[..|ops| - 1], k, n) <==> NotRegisteredFrom(ops, k, n)
  {
    assert forall m | 0 <= m < |ops| - 1 :: ops[..|ops| - 1][m] == ops[m];
  }

  lemma AllSavedStep(t: Tracked, ops: seq<Op>, k: string)
    requires ops != []
    ensures var rest, op := ops[..|ops| - 1], ops[|ops| - 1];
            AllSaved(t, ops, k)
            <==> if Registers(op, k) then op.saved else AllSaved(t, rest, k) && (AddsEntry(Run(t, rest), op, k) ==> op.saved)
  {
    var last := |ops| - 1;
    var rest, op := ops[..last], ops[last];
    assert SavedAt(t, ops, k, last) <==> (AddsEntry(Run(t, rest), op, k) ==> op.saved);
    forall n: nat | n < last
      ensures SavedAt(t, ops, k, n) <==> Registers(op, k) || SavedAt(t, rest, k, n)
    {
      assert rest[..n] == ops[..n];
      if !Registers(op, k) {
        NotRegisteredStep(ops, k, n + 1);
      }
    }
    if Registers(op, k) {
      assert AddsEntry(Run(t, rest), op, k);
    }
  }

  /** The history of k holds `base` and then the entries fired for k from firing number `since` on; exactly
      these if `all`, and more than these if not. */
  ghost predicate FiringsFollow(t: Tracked, k: string, since: nat, base: seq<Entry>, all: bool) {
    && k in t.records && since <= |t.fired|
    && var told := base + FiredFor(t.fired[since..], k);
       if all then told == t.records[k].history else |told| < |t.records[k].history|
  }

  /** Firing number n is of a registration of k. */
  ghost predicate RegistrationAt(t: Tracked, k: string, n: nat) {
    n < |t.fired| && t.fired[n].key == k && t.fired[n].entry.state == Registered
  }

  lemma RegistrationFollows(t: Tracked, op: Op, k: string)
    requires Registers(op, k)
    ensures FiringsFollow(Apply(t, op), k, |t.fired|, [], op.saved)
    ensures op.saved ==> RegistrationAt(Apply(t, op), k, |t.fired|)
  {
    var t' := Apply(t, op);
    if op.saved {
      var f := Firing(k, Entry(Registered, op.now));
      FiredForOne(f, k);
      assert t'.fired[|t.fired|..] == [f];
    } else {
      assert t'.fired[|t.fired|..] == [];
    }
  }

  lemma {:induction false} FiredForConcat(a: seq<Firing>, b: seq<Firing>, k: string)
    ensures FiredFor(a + b, k) == FiredFor(a, k) + FiredFor(b, k)
    decreases |b|
  {
    if b == [] {
      assert a + b == a;
    } else {
      var init, last := b[..|b| - 1], b[|b| - 1];
      assert a + b == (a + init) + [last];
      FiredForSnoc(a + init, last, k);
      FiredForConcat(a, init, k);
    }
  }

  lemma FiredForOne(f: Firing, k: string)
    ensures FiredFor([f], k) == if f.key == k then [f.entry] else []
  {
    FiredForSnoc([], f, k);
    assert [] + [f] == [f];
  }

  /** What one operation fires. */
  function Fires(t: Tracked, op: Op): seq<Firing> {
    match op
    case Register(now, mac, _, _, _, saved) => if saved then [Firing(Lower(mac), Entry(Registered, now))] else []
    case Transition(now, mac, newState, _, saved) =>
      if saved && Lower(mac) in t.records then [Firing(Lower(mac), Entry(newState, now))] else []
    case _ => []
  }

  /** Unless it registers k or clears all, an operation adds to the history of k what it fires for k, or, if
      its save fails, an entry that it does not fire. */
  lemma OperationAdds(t: Tracked, op: Op, k: string)
    requires k in t.records && !Registers(op, k) && !op.Clear?
    ensures Apply(t, op).fired == t.fired + Fires(t, op)
    ensures k in Apply(t, op).records
    ensures AddsEntry(t, op, k) && !op.saved ==>
              FiredFor(Fires(t, op), k) == [] && |Apply(t, op).records[k].history| == |t.records[k].history| + 1
    ensures !AddsEntry(t, op, k) || op.saved ==>
              Apply(t, op).records[k].history == t.records[k].history + FiredFor(Fires(t, op), k)
  {
    match op {
      case Register(now, mac, _, _, _, _) => FiredForOne(Firing(Lower(mac), Entry(Registered, now)), k);
      case Transition(now, mac, newState, _, _) => FiredForOne(Firing(Lower(mac), Entry(newState, now)), k);
      case _ =>
    }
  }

  lemma FiredSince(fired: seq<Firing>, added: seq<Firing>, since: nat, k: string)
    requires since <= |fired|
    ensures FiredFor((fired + added)[since..], k) == FiredFor(fired[since..], k) + FiredFor(added, k)
  {
    assert (fired + added)[since..] == fired[since..] + added;
    FiredForConcat(fired[since..], added, k);
  }

  lemma MoreFollows(t: Tracked, op: Op, k: string, since: nat, base: seq<Entry>, all: bool)
    requires FiringsFollow(t, k, since, base, all) && !Registers(op, k) && !op.Clear?
    ensures FiringsFollow(Apply(t, op), k, since, base, all && (AddsEntry(t, op, k) ==> op.saved))
    ensures RegistrationAt(t, k, since) ==> RegistrationAt(Apply(t, op), k, since)
  {
    OperationAdds(t, op, k);
    FiredSince(t.fired, Fires(t, op), since, k);
    ConcatAssociates(base, FiredFor(t.fired[since..], k), FiredFor(Fires(t, op), k));
  }

  /** The number of the last operation that registers k. */
  ghost function LastRegistration(ops: seq<Op>, k: string): (n: Option<nat>)
    ensures n.Some? ==> n.value < |ops| && Registers(ops[n.value], k) && NotRegisteredFrom(ops, k, n.value + 1)
    ensures n.None? ==> NotRegisteredFrom(ops, k, 0)
  {
    if ops == [] then None
    else if Registers(ops[|ops| - 1], k) then Some(|ops| - 1)
    else LastRegistration(ops[..|ops| - 1], k)
  }

  /** How many firings there had been when k was last registered, or else when the run began. */
  ghost function FiredBefore(t: Tracked, ops: seq<Op>, k: string): nat {
    match LastRegistration(ops, k)
    case None => |t.fired|
    case Some(n) => |Run(t, ops[..n]).fired|
  }

  /** The history that k had then; a registration starts a new one. */
  ghost function HistoryBefore(t: Tracked, ops: seq<Op>, k: string): seq<Entry> {
    if LastRegistration(ops, k).None? && k in t.records then t.records[k].history else []
  }

  lemma BeforeUnlessRegistered(t: Tracked, ops: seq<Op>, k: string)
    requires ops != [] && !Registers(ops[|ops| - 1], k)
    ensures var rest := ops[..|ops| - 1];
            && LastRegistration(ops, k) == LastRegistration(rest, k)
            && FiredBefore(t, ops, k) == FiredBefore(t, rest, k)
            && HistoryBefore(t, ops, k) == HistoryBefore(t, rest, k)
  {
    var rest := ops[..|ops| - 1];
    var n := LastRegistration(rest, k);
    if n.Some? {
      assert ops[..n.value] == rest[..n.value];
    }
  }

  lemma {:induction false} FiringsFollowHistory(t: Tracked, ops: seq<Op>, k: string)
    requires k in Run(t, ops).records
    ensures FiringsFollow(Run(t, ops), k, FiredBefore(t, ops, k), HistoryBefore(t, ops, k), AllSaved(t, ops, k))
    ensures LastRegistration(ops, k).None? ==> k in t.records
    ensures LastRegistration(ops, k).Some? && AllSaved(t, ops, k) ==>
              RegistrationAt(Run(t, ops), k, FiredBefore(t, ops, k))
    decreases |ops|
  {
    if ops == [] {
      assert t.fired[|t.fired|..] == [];
    } else {
      var rest, op := ops[..|ops| - 1], ops[|ops| - 1];
      AllSavedStep(t, ops, k);
      if Registers(op, k) {
        RegistrationFollows(Run(t, rest), op, k);
      } else {
        BeforeUnlessRegistered(t, ops, k);
        FiringsFollowHistory(t, rest, k);
        MoreFollows(Run(t, rest), op, k, FiredBefore(t, ops, k), HistoryBefore(t, ops, k), AllSaved(t, rest, k));
      }
    }
  }

  /** From any tracker, the callbacks fired for a MAC since its last registration (or, if the run does not
      register it, since the run began) match what its history has gained since, entry for entry, if and only
      if no save failed that came with one of these entries. Otherwise the history has more entries. */
  lemma FiringsMatchHistoryIff(t: Tracked, ops: seq<Op>, k: string)
    requires k in Run(t, ops).records
    ensures FiredBefore(t, ops, k) <= |Run(t, ops).fired|
    ensures var history := Run(t, ops).records[k].history;
            var told := HistoryBefore(t, ops, k) + FiredFor(Run(t, ops).fired[FiredBefore(t, ops, k)..], k);
            && (told == history <==> AllSaved(t, ops, k))
            && (told != history ==> |told| < |history|)
    ensures LastRegistration(ops, k).None? ==> k in t.records
    ensures LastRegistration(ops, k).Some? && AllSaved(t, ops, k) ==>
              RegistrationAt(Run(t, ops), k, FiredBefore(t, ops, k))
  {
    FiringsFollowHistory(t, ops, k);
  }

  // ---------- The other fields of a record ----------

  predicate SetsNetboot(op: Op, k: string) {
    op.SetNetboot? && Lower(op.mac) == k
  }

  predicate SetsError(op: Op, k: string) {
    op.Transition? && Lower(op.mac) == k && op.error.Some? && op.error.value != ""
  }

  /** What an operation that does not register k leaves of its record. */
  lemma OperationLeaves(t: Tracked, op: Op, k: string)
    requires k in Apply(t, op).records && !Registers(op, k)
    ensures k in t.records
    ensures var r, r' := t.records[k], Apply(t, op).records[k];
            && r'.mac == r.mac && r'.profile == r.profile && r'.osFamily == r.osFamily && r'.osVersion == r.osVersion
            && r'.startedAt == r.startedAt
            && r'.netbootEnabled == (if SetsNetboot(op, k) then op.enabled else r.netbootEnabled)
            && r'.errorMessage == (if SetsError(op, k) then op.error else r.errorMessage)
  {
  }

  /** What is left of it by the operations from number n on, none of which registers k. */
  lemma {:induction false} OperationsLeave(t: Tracked, ops: seq<Op>, k: string, n: nat, m: nat)
    requires n <= m <= |ops| && NotRegisteredFrom(ops, k, n) && k in Run(t, ops[..m]).records
    ensures k in Run(t, ops[..n]).records
    ensures var r, r' := Run(t, ops[..n]).records[k], Run(t, ops[..m]).records[k];
            && r'.mac == r.mac && r'.profile == r.profile && r'.osFamily == r.osFamily && r'.osVersion == r.osVersion
            && r'.startedAt == r.startedAt
            && ((forall i | n <= i < m :: !SetsNetboot(ops[i], k)) ==> r'.netbootEnabled == r.netbootEnabled)
            && ((forall i | n <= i < m :: !SetsError(ops[i], k)) ==> r'.errorMessage == r.errorMessage)
    decreases m
  {
    if n < m {
      assert ops[..m][..m - 1] == ops[..m - 1];
      OperationLeaves(Run(t, ops[..m - 1]), ops[m - 1], k);
      OperationsLeave(t, ops, k, n, m - 1);
    }
  }

  /** A record is that of the last registration of its MAC: its MAC as given, its profile and system. */
  lemma RecordIsOfRegistration(t: Tracked, ops: seq<Op>, k: string, n: nat)
    requires n < |ops| && ops[n].Register? && Lower(ops[n].mac) == k && NotRegisteredFrom(ops, k, n + 1)
    requires k in Run(t, ops).records
    ensures var r := Run(t, ops).records[k];
            && r.mac == ops[n].mac && r.profile == ops[n].profile
            && r.osFamily == ops[n].osFamily && r.osVersion == ops[n].osVersion && r.startedAt == Some(ops[n].now)
            && ((forall i | n < i < |ops| :: !SetsNetboot(ops[i], k)) ==> r.netbootEnabled)
            && ((forall i | n < i < |ops| :: !SetsError(ops[i], k)) ==> r.errorMessage == None)
  {
    assert ops[..|ops|] == ops && ops[..n + 1][..n] == ops[..n];
    OperationsLeave(t, ops, k, n + 1, |ops|);
  }

  /** The netboot flag is what it was last set to since the registration. */
  lemma NetbootIsLastSet(t: Tracked, ops: seq<Op>, k: string, n: nat)
    requires n < |ops| && ops[n].SetNetboot? && Lower(ops[n].mac) == k && NotRegisteredFrom(ops, k, n)
    requires forall i | n < i < |ops| :: !(ops[i].SetNetboot? && Lower(ops[i].mac) == k)
    requires k in Run(t, ops).records
    ensures Run(t, ops).records[k].netbootEnabled == ops[n].enabled
  {
    assert ops[..|ops|] == ops && ops[..n + 1][..n] == ops[..n];
    OperationsLeave(t, ops, k, n + 1, |ops|);
    OperationLeaves(Run(t, ops[..n]), ops[n], k);
  }

  /** The error message is the last one given since the registration; a later success does not remove it. */
  lemma ErrorIsLastGiven(t: Tracked, ops: seq<Op>, k: string, n: nat)
    requires n < |ops| && ops[n].Transition? && Lower(ops[n].mac) == k && NotRegisteredFrom(ops, k, n)
    requires ops[n].error.Some? && ops[n].error.value != ""
    requires forall i | n < i < |ops| && ops[i].Transition? && Lower(ops[i].mac) == k :: ops[i].error in [None, Some("")]
    requires k in Run(t, ops).records
    ensures Run(t, ops).records[k].errorMessage == ops[n].error
  {
    assert ops[..|ops|] == ops && ops[..n + 1][..n] == ops[..n];
    OperationsLeave(t, ops, k, n + 1, |ops|);
    OperationLeaves(Run(t, ops[..n]), ops[n], k);
  }

  // ---------- The documented lifecycle ----------

  /** The arrows of the lifecycle in docs/CONTRACT.md. */
  predicate Legal(a: ProvisionState, b: ProvisionState) {
    match a
    case Registered => b == Booting
    case Booting => b == Installing || b == Failed
    case Installing => b == PostInstall || b == Failed
    case PostInstall => b == Complete || b == Failed
    case Complete => false
    case Failed => false
  }

  ghost predicate LegalPath(history: seq<Entry>) {
    forall i | 0 <= i < |history| - 1 :: Legal(history[i].state, history[i + 1].state)
  }

  lemma RunSnoc(t: Tracked, ops: seq<Op>, op: Op)
    ensures Run(t, ops + [op]) == Apply(Run(t, ops), op)
  {
    assert (ops + [op])[..|ops|] == ops;
  }

  /** The tracker accepts any state after any other, so each step the lifecycle forbids can be taken. */
  lemma AnyStateMayFollowAny(now: real, mac: string, a: ProvisionState, b: ProvisionState) returns (ops: seq<Op>)
    ensures var t := Run(Tracked(map[], map[], []), ops);
            && Lower(mac) in t.records
            && t.records[Lower(mac)].history == [Entry(Registered, now), Entry(a, now), Entry(b, now)]
            && (!Legal(a, b) ==> !LegalPath(t.records[Lower(mac)].history))
  {
    var register := Op.Register(now, mac, "", "", "", true);
    var toA, toB := Op.Transition(now, mac, a, None, true), Op.Transition(now, mac, b, None, true);
    ops := [] + [register] + [toA] + [toB];
    RunSnoc(Tracked(map[], map[], []), [], register);
    RunSnoc(Tracked(map[], map[], []), [] + [register], toA);
    RunSnoc(Tracked(map[], map[], []), [] + [register] + [toA], toB);
    var h := Run(Tracked(map[], map[], []), ops).records[Lower(mac)].history;
    assert h == [Entry(Registered, now)] + [Entry(a, now)] + [Entry(b, now)];
    assert h[1].state == a && h[1 + 1].state == b;
  }

  /** Registered and then at once COMPLETE. */
  lemma InstallationSkipped(now: real, mac: string)
    ensures var t := Run(Tracked(map[], map[], []), [Op.Register(now, mac, "", "", "", true), Op.Transition(now, mac, Complete, None, true)]);
            && Lower(mac) in t.records && t.records[Lower(mac)].state == Complete
            && !LegalPath(t.records[Lower(mac)].history)
  {
    var register, complete := Op.Register(now, mac, "", "", "", true), Op.Transition(now, mac, Complete, None, true);
    RunSnoc(Tracked(map[], map[], []), [], register);
    RunSnoc(Tracked(map[], map[], []), [] + [register], complete);
    assert [] + [register] + [complete] == [register, complete];
    var h := Run(Tracked(map[], map[], []), [register, complete]).records[Lower(mac)].history;
    assert h[0].state == Registered && h[0 + 1].state == Complete;
  }

  /** If operation n is an accepted transition of k after its last registration, the lifecycle allows it from
      the state that k's record has then. */
  ghost predicate StepLegal(t: Tracked, ops: seq<Op>, k: string, n: nat)
    requires n < |ops|
  {
    var before := Run(t, ops[..n]);
    NotRegisteredFrom(ops, k, n) && ops[n].Transition? && Lower(ops[n].mac) == k && k in before.records
    ==> Legal(before.records[k].state, ops[n].newState)
  }

  ghost predicate StepsLegal(t: Tracked, ops: seq<Op>, k: string) {
    forall n: nat | n < |ops| :: StepLegal(t, ops, k, n)
  }

  lemma StepLegalPrefix(t: Tracked, ops: seq<Op>, k: string, n: nat)
    requires n + 1 < |ops| && !Registers(ops[|ops| - 1], k)
    ensures StepLegal(t, ops[..|ops| - 1], k, n) <==> StepLegal(t, ops, k, n)
  {
    var rest := ops[..|ops| - 1];
    assert rest[..n] == ops[..n];
    assert NotRegisteredFrom(rest, k, n) ==> NotRegisteredFrom(ops, k, n);
    assert NotRegisteredFrom(ops, k, n) ==> NotRegisteredFrom(rest, k, n) by {
      assert forall m | n <= m < |rest| :: rest[m] == ops[m];
    }
  }

  /** The last entry of the history is the current state. */
  ghost predicate EndsInState(r: Record) {
    r.history != [] && r.history[|r.history| - 1].state == r.state
  }

  lemma TransitionIsLegalIff(r: Record, now: real, newState: ProvisionState, error: Option<string>)
    requires EndsInState(r)
    ensures LegalPath(Transitioned(r, now, newState, error).history)
            <==> LegalPath(r.history) && Legal(r.state, newState)
  {
    var h, h' := r.history, Transitioned(r, now, newState, error).history;
    assert forall i | 0 <= i < |h| :: h'[i] == h[i];
    if LegalPath(h') {
      assert Legal(h'[|h| - 1].state, h'[|h| - 1 + 1].state);
      forall i | 0 <= i < |h| - 1
        ensures Legal(h[i].state, h[i + 1].state)
      {
        assert Legal(h'[i].state, h'[i + 1].state);
      }
    }
  }

  lemma OperationIsLegalIff(t: Tracked, op: Op, k: string)
    requires k in t.records && EndsInState(t.records[k]) && k in Apply(t, op).records && !Registers(op, k)
    ensures LegalPath(Apply(t, op).records[k].history)
            <==> LegalPath(t.records[k].history)
                 && (op.Transition? && Lower(op.mac) == k ==> Legal(t.records[k].state, op.newState))
  {
    if op.Transition? && Lower(op.mac) == k {
      TransitionIsLegalIff(t.records[k], op.now, op.newState, op.error);
    } else {
      assert Apply(t, op).records[k].history == t.records[k].history;
    }
  }

  /** The history of k is a path of the lifecycle as far as `t` and its callers are to answer for it. */
  ghost predicate CallersKeep(t: Tracked, ops: seq<Op>, k: string) {
    StepsLegal(t, ops, k) && (NotRegisteredFrom(ops, k, 0) ==> k in t.records && LegalPath(t.records[k].history))
  }

  /** The record that k has in t, unless the run registers k, ends in its state. Records that this code has
      written do. */
  ghost predicate SoundStart(t: Tracked, ops: seq<Op>, k: string) {
    NotRegisteredFrom(ops, k, 0) && k in t.records ==> EndsInState(t.records[k])
  }

  lemma {:induction false} RunEndsInState(t: Tracked, ops: seq<Op>, k: string)
    requires SoundStart(t, ops, k) && k in Run(t, ops).records
    ensures EndsInState(Run(t, ops).records[k])
    decreases |ops|
  {
    if ops != [] {
      var rest, op := ops[..|ops| - 1], ops[|ops| - 1];
      if !Registers(op, k) {
        NotRegisteredStep(ops, k, 0);
        KnownBefore(Run(t, rest), op, k);
        RunEndsInState(t, rest, k);
      }
      ApplyEndsInState(Run(t, rest), op, k);
    }
  }

  lemma KnownBefore(t: Tracked, op: Op, k: string)
    requires k in Apply(t, op).records && !Registers(op, k)
    ensures k in t.records
  {
  }

  lemma ApplyEndsInState(t: Tracked, op: Op, k: string)
    requires k in Apply(t, op).records && (!Registers(op, k) ==> k in t.records && EndsInState(t.records[k]))
    ensures EndsInState(Apply(t, op).records[k])
  {
  }

  /** The code keeps to the lifecycle exactly as far as its callers do: from any tracker whose record of k, if
      the run does not register k, ends in its state, the history of k is a path of the lifecycle if and only
      if every transition since its registration was one the lifecycle allows, and, when it was registered
      before the run, its history was a path already. */
  lemma {:induction false} LifecycleKeptIff(t: Tracked, ops: seq<Op>, k: string)
    requires SoundStart(t, ops, k) && k in Run(t, ops).records
    ensures LegalPath(Run(t, ops).records[k].history) <==> CallersKeep(t, ops, k)
    decreases |ops|
  {
    if ops != [] {
      var rest, op := ops[..|ops| - 1], ops[|ops| - 1];
      if Registers(op, k) {
        NothingSince(t, ops, k);
      } else {
        NotRegisteredStep(ops, k, 0);
        RunEndsInState(t, rest, k);
        OperationIsLegalIff(Run(t, rest), op, k);
        LifecycleKeptIff(t, rest, k);
        LifecycleOneMore(t, ops, k);
      }
    }
  }

  lemma NothingSince(t: Tracked, ops: seq<Op>, k: string)
    requires ops != [] && Registers(ops[|ops| - 1], k)
    ensures CallersKeep(t, ops, k)
  {
    assert forall n: nat | n < |ops| :: !NotRegisteredFrom(ops, k, n);
  }

  lemma LifecycleOneMore(t: Tracked, ops: seq<Op>, k: string)
    requires ops != [] && !Registers(ops[|ops| - 1], k)
    ensures NotRegisteredFrom(ops, k, 0) <==> NotRegisteredFrom(ops[..|ops| - 1], k, 0)
    ensures StepsLegal(t, ops, k) <==> StepsLegal(t, ops[..|ops| - 1], k) && StepLegal(t, ops, k, |ops| - 1)
  {
    var rest, last := ops[..|ops| - 1], |ops| - 1;
    assert forall m | 0 <= m < last :: rest[m] == ops[m];
    forall n: nat | n < last
      ensures StepLegal(t, rest, k, n) <==> StepLegal(t, ops, k, n)
    {
      StepLegalPrefix(t, ops, k, n);
    }
  }

  // ---------- Memory and backend ----------

  /** How many operations there are up to the last that wrote k and was saved; none if there is no such. */
  function LastSaved(t: Tracked, ops: seq<Op>, k: string): (n: nat)
    ensures n <= |ops|
  {
    if ops == [] then 0
    else
      var rest, op := ops[..|ops| - 1], ops[|ops| - 1];
      if Touches(Run(t, rest), op, k) && op.saved then |ops| else LastSaved(t, rest, k)
  }

  /** The backend holds for k what memory held after the last saved write of k. */
  lemma {:induction false} BackendHoldsLastSaved(t: Tracked, ops: seq<Op>, k: string)
    requires SameFor(t.records, t.stored, k)
    ensures SameFor(Run(t, ops[..LastSaved(t, ops, k)]).records, Run(t, ops).stored, k)
    decreases |ops|
  {
    if ops != [] {
      var rest, op := ops[..|ops| - 1], ops[|ops| - 1];
      OperationWrites(Run(t, rest), op, k);
      if Touches(Run(t, rest), op, k) && op.saved {
        assert ops[..|ops|] == ops;
      } else {
        BackendHoldsLastSaved(t, rest, k);
        assert ops[..LastSaved(t, rest, k)] == rest[..LastSaved(t, rest, k)];
      }
    }
  }

  /** No write of k since operation n. */
  ghost predicate UntouchedFrom(t: Tracked, ops: seq<Op>, k: string, n: nat) {
    forall m | n <= m < |ops| :: !Touches(Run(t, ops[..m]), ops[m], k)
  }

  lemma {:induction false} UntouchedIsKept(t: Tracked, ops: seq<Op>, k: string, n: nat, m: nat)
    requires n <= m <= |ops| && UntouchedFrom(t, ops, k, n)
    ensures SameFor(Run(t, ops[..n]).records, Run(t, ops[..m]).records, k)
    decreases m
  {
    if n < m {
      UntouchedIsKept(t, ops, k, n, m - 1);
      assert ops[..m][..m - 1] == ops[..m - 1];
      OperationWrites(Run(t, ops[..m - 1]), ops[m - 1], k);
    }
  }

  /** Whatever saves have failed before: if the last write of k was saved, the backend holds what memory
      holds for k. */
  lemma BackendCatchesUp(t: Tracked, ops: seq<Op>, k: string)
    requires SameFor(t.records, t.stored, k) && UntouchedFrom(t, ops, k, LastSaved(t, ops, k))
    ensures SameFor(Run(t, ops).records, Run(t, ops).stored, k)
  {
    BackendHoldsLastSaved(t, ops, k);
    UntouchedIsKept(t, ops, k, LastSaved(t, ops, k), |ops|);
    assert ops[..|ops|] == ops;
  }

  /** After a write of k by one operation, memory and backend still agree on it if and only if the operation
      was saved or has changed nothing. A transition always changes something. */
  lemma StillAgreesIff(t: Tracked, op: Op, k: string)
    requires SameFor(t.records, t.stored, k)
    ensures SameFor(Apply(t, op).records, Apply(t, op).stored, k)
            <==> !Touches(t, op, k) || op.saved || SameFor(t.records, Apply(t, op).records, k)
    ensures op.Transition? && Touches(t, op, k) ==> !SameFor(t.records, Apply(t, op).records, k)
  {
    OperationWrites(t, op, k);
    if op.Transition? && Touches(t, op, k) {
      assert |Apply(t, op).records[k].history| == |t.records[k].history| + 1;
    }
  }

  /** Operation m is an accepted transition of k. */
  predicate TransitionAt(t: Tracked, ops: seq<Op>, k: string, m: nat)
    requires m < |ops|
  {
    ops[m].Transition? && Lower(ops[m].mac) == k && k in Run(t, ops[..m]).records
  }

  ghost predicate NoTransition(t: Tracked, ops: seq<Op>, k: string, n: nat, m: nat)
    requires n <= m <= |ops|
  {
    forall i: nat | n <= i < m :: !TransitionAt(t, ops, k, i)
  }

  /** r' is r with at most another netboot flag, or, if `grown`, with a longer history. */
  ghost predicate Evolved(r: Record, r': Record, grown: bool) {
    && r'.startedAt == r.startedAt
    && if grown then |r'.history| > |r.history| else r' == r.(netbootEnabled := r'.netbootEnabled)
  }

  lemma EvolvesFurther(r: Record, r': Record, r'': Record, grown: bool, more: bool)
    requires Evolved(r, r', grown) && Evolved(r', r'', more)
    ensures Evolved(r, r'', grown || more)
  {
  }

  lemma OperationEvolves(t: Tracked, op: Op, k: string)
    requires !Registers(op, k) && k in Apply(t, op).records
    ensures k in t.records
    ensures Evolved(t.records[k], Apply(t, op).records[k], op.Transition? && Lower(op.mac) == k)
  {
  }

  /** While k is not registered again its record changes at most in its netboot flag until it has a
      transition, and from then on has a longer history. */
  lemma {:induction false} RecordEvolves(t: Tracked, ops: seq<Op>, k: string, n: nat, m: nat)
    requires n <= m <= |ops| && NotRegisteredFrom(ops, k, n) && k in Run(t, ops[..m]).records
    ensures k in Run(t, ops[..n]).records
    ensures Evolved(Run(t, ops[..n]).records[k], Run(t, ops[..m]).records[k], !NoTransition(t, ops, k, n, m))
    decreases m
  {
    if n < m {
      assert ops[..m][..m - 1] == ops[..m - 1];
      OperationEvolves(Run(t, ops[..m - 1]), ops[m - 1], k);
      RecordEvolves(t, ops, k, n, m - 1);
      EvolvesFurther(Run(t, ops[..n]).records[k], Run(t, ops[..m - 1]).records[k], Run(t, ops[..m]).records[k],
                     !NoTransition(t, ops, k, n, m - 1), TransitionAt(t, ops, k, m - 1));
      assert NoTransition(t, ops, k, n, m) <==> NoTransition(t, ops, k, n, m - 1) && !TransitionAt(t, ops, k, m - 1);
    }
  }

  /** If k has not been registered since its last saved write, memory and backend agree on it if and only if
      it has had no transition since and its netboot flag is as it was then, or, when it has been cleared
      since, it was not there then either. */
  lemma BackendBehindIff(t: Tracked, ops: seq<Op>, k: string)
    requires SameFor(t.records, t.stored, k) && NotRegisteredFrom(ops, k, LastSaved(t, ops, k))
    ensures var n := LastSaved(t, ops, k); var saved, now := Run(t, ops[..n]).records, Run(t, ops).records;
            SameFor(now, Run(t, ops).stored, k)
            <==> if k in now then
                   NoTransition(t, ops, k, n, |ops|) && k in saved && saved[k].netbootEnabled == now[k].netbootEnabled
                 else k !in saved
  {
    BackendHoldsLastSaved(t, ops, k);
    assert ops[..|ops|] == ops;
    if k in Run(t, ops).records {
      RecordEvolves(t, ops, k, LastSaved(t, ops, k), |ops|);
    }
  }

  /** If k has been registered since its last saved write, and at another time than the record stored then,
      they disagree. */
  lemma UnsavedRegistrationDisagrees(t: Tracked, ops: seq<Op>, k: string, m: nat)
    requires SameFor(t.records, t.stored, k)
    requires LastSaved(t, ops, k) <= m < |ops| && Registers(ops[m], k) && NotRegisteredFrom(ops, k, m + 1)
    requires var stored := Run(t, ops).stored; k in stored ==> stored[k].startedAt != Some(ops[m].now)
    ensures k in Run(t, ops).records ==> !SameFor(Run(t, ops).records, Run(t, ops).stored, k)
  {
    assert ops[..|ops|] == ops;
    if k in Run(t, ops).records {
      RecordEvolves(t, ops, k, m + 1, |ops|);
      assert ops[..m + 1][..m] == ops[..m];
    }
  }

  /** If every save succeeds the backend holds exactly the records in memory. */
  lemma {:induction false} SavedRunsMirror(t: Tracked, ops: seq<Op>)
    requires t.records == t.stored && forall op <- ops :: op.saved
    ensures Run(t, ops).records == Run(t, ops).stored
    decreases |ops|
  {
    if ops != [] {
      assert ops[|ops| - 1] in ops;
      SavedRunsMirror(t, ops[..|ops| - 1]);
    }
  }
}
