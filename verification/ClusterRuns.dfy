/** What holds of every cluster record that workflows and marks can leave in the store
    (tftpos/cluster.py), also when a workflow is cut off after any of its saves. */
module ClusterRuns {
  import opened Common
  import opened Cluster
  import opened ClusterWorkflow

  predicate Finished(h: Host) {
    h.state == HostState.Complete || h.state == HostState.Failed
  }

  // ---------- One workflow ----------

  /** A callback is called on a visit exactly when all callbacks before it have returned. */
  lemma {:induction false} CalledUntilFirstError(oracle: Oracle, v: nat, start: nat, n: nat, c: nat)
    requires start <= c < n
    ensures c < start + Attempts(oracle, v, start, n) <==> forall b: nat | start <= b < c :: oracle(v, b).None?
    decreases n - start
  {
    if start < c && oracle(v, start).None? {
      CalledUntilFirstError(oracle, v, start + 1, n, c);
    }
  }

  /** The last of the first k visits to a host decides how it stands. */
  lemma {:induction false} LastVisitDecides(w: Plan, k: nat, u: nat)
    requires w.Valid() && u < k <= |w.visits|
    requires forall x | u < x < k :: w.visits[x] != w.visits[u]
    ensures var p := w.visits[u]; AfterVisits(w, k).hosts[p] == Finish(AfterVisits(w, u).hosts[p], Outcome(w, u))
    decreases k
  {
    if u < k - 1 {
      LastVisitDecides(w, k - 1, u);
    }
  }

  lemma {:induction false} UnvisitedIsUnchanged(w: Plan, k: nat, p: nat)
    requires w.Valid() && k <= |w.visits| && p < |w.d.hosts|
    requires forall x | 0 <= x < k :: w.visits[x] != p
    ensures AfterVisits(w, k).hosts[p] == w.d.hosts[p]
    decreases k
  {
    if k > 0 {
      UnvisitedIsUnchanged(w, k - 1, p);
    }
  }

  lemma {:induction false} LastVisit(visits: seq<nat>, p: nat, k: nat) returns (u: nat)
    requires k <= |visits| && p in visits[..k]
    ensures u < k && visits[u] == p && forall x | u < x < k :: visits[x] != p
  {
    if visits[k - 1] == p {
      u := k - 1;
    } else {
      assert visits[..k] == visits[..k - 1] + [visits[k - 1]];
      u := LastVisit(visits, p, k - 1);
    }
  }

  /** After a workflow no host is left pending or provisioning. */
  lemma EveryHostFinishes(d: Definition, oracle: Oracle, n: nat, p: nat)
    requires p < |d.hosts|
    ensures Finished(Final(PlanFor(d, oracle, n)).hosts[p])
    ensures AllSucceed(PlanFor(d, oracle, n), |Visits(d)|) ==> Final(PlanFor(d, oracle, n)).hosts[p].state == HostState.Complete
  {
    var w := PlanFor(d, oracle, n);
    EveryHostIsVisited(d, p);
    assert w.visits[..|w.visits|] == w.visits;
    var u := LastVisit(w.visits, p, |w.visits|);
    LastVisitDecides(w, |w.visits|, u);
  }

  /** Hosts keep their names, MACs and roles. */
  lemma {:induction false} HostsStayThemselves(w: Plan, k: nat, p: nat)
    requires w.Valid() && k <= |w.visits| && p < |w.d.hosts|
    ensures var h, original := AfterVisits(w, k).hosts[p], w.d.hosts[p];
            h.hostname == original.hostname && h.mac == original.mac && h.role == original.role
  {
    if k > 0 {
      HostsStayThemselves(w, k - 1, p);
    }
  }

  /** The error of a host is that of its last failing visit. */
  lemma {:induction false} ErrorIsKept(w: Plan, k: nat, p: nat, u: nat)
    requires w.Valid() && u < k <= |w.visits| && w.visits[u] == p && Outcome(w, u).Some?
    requires forall x | u < x < k && w.visits[x] == p :: Outcome(w, x).None?
    ensures AfterVisits(w, k).hosts[p].error == Outcome(w, u).value
    decreases k
  {
    if u < k - 1 {
      ErrorIsKept(w, k - 1, p, u);
    }
  }

  lemma {:induction false} ErrorIsOriginal(w: Plan, k: nat, p: nat)
    requires w.Valid() && k <= |w.visits| && p < |w.d.hosts|
    requires forall x | 0 <= x < k && w.visits[x] == p :: Outcome(w, x).None?
    ensures AfterVisits(w, k).hosts[p].error == w.d.hosts[p].error
  {
    if k > 0 {
      ErrorIsOriginal(w, k - 1, p);
    }
  }

  /** After the workflow a host is FAILED exactly if a callback raised on its last visit, and else COMPLETE. */
  lemma HostOutcome(d: Definition, oracle: Oracle, n: nat, p: nat, v: nat)
    requires v < |Visits(d)| && Visits(d)[v] == p && forall x | v < x < |Visits(d)| :: Visits(d)[x] != p
    ensures var h := Final(PlanFor(d, oracle, n)).hosts[p];
            && (h.state == HostState.Failed <==> exists c: nat :: c < n && oracle(v, c).Some?)
            && (h.state == HostState.Complete <==> forall c: nat | c < n :: oracle(v, c).None?)
            && h.hostname == d.hosts[p].hostname && h.mac == d.hosts[p].mac && h.role == d.hosts[p].role
  {
    var w := PlanFor(d, oracle, n);
    LastVisitDecides(w, |w.visits|, v);
    FirstErrorIff(oracle, v, 0, n);
    HostsStayThemselves(w, |w.visits|, p);
  }

  /** Its error is what the first callback to raise raised on the last visit on which one did, also if a later
      visit succeeded. */
  lemma HostError(d: Definition, oracle: Oracle, n: nat, p: nat, u: nat, c: nat)
    requires u < |Visits(d)| && Visits(d)[u] == p
    requires c < n && oracle(u, c).Some? && forall b: nat | b < c :: oracle(u, b).None?
    requires forall x: nat, b: nat | u < x < |Visits(d)| && Visits(d)[x] == p && b < n :: oracle(x, b).None?
    ensures Final(PlanFor(d, oracle, n)).hosts[p].error == oracle(u, c).value
  {
    var w := PlanFor(d, oracle, n);
    FirstErrorIff(oracle, u, 0, n);
    forall x: nat | u < x < |w.visits| && w.visits[x] == p
      ensures Outcome(w, x).None?
    {
      FirstErrorIff(oracle, x, 0, n);
    }
    ErrorIsKept(w, |w.visits|, p, u);
  }

  /** If no callback ever raised for it, its error is the one it had. */
  lemma HostErrorUnchanged(d: Definition, oracle: Oracle, n: nat, p: nat)
    requires p < |d.hosts|
    requires forall x: nat, b: nat | x < |Visits(d)| && Visits(d)[x] == p && b < n :: oracle(x, b).None?
    ensures Final(PlanFor(d, oracle, n)).hosts[p].error == d.hosts[p].error
  {
    var w := PlanFor(d, oracle, n);
    forall x: nat | x < |w.visits| && w.visits[x] == p
      ensures Outcome(w, x).None?
    {
      FirstErrorIff(oracle, x, 0, n);
    }
    ErrorIsOriginal(w, |w.visits|, p);
  }

  /** The cluster ends COMPLETE exactly if no callback ever raised, and else PARTIAL exactly if some host is
      COMPLETE, and else FAILED. */
  lemma WorkflowState(d: Definition, oracle: Oracle, n: nat)
    ensures var f := Final(PlanFor(d, oracle, n));
            && |f.hosts| == |d.hosts| && f.name == d.name && f.order == d.order
            && f.state == if forall v: nat, c: nat | v < |Visits(d)| && c < n :: oracle(v, c).None? then ClusterState.Complete
                          else if exists i :: 0 <= i < |d.hosts| && f.hosts[i].state == HostState.Complete then ClusterState.Partial
                          else ClusterState.Failed
  {
    var w := PlanFor(d, oracle, n);
    forall v: nat
      ensures Outcome(w, v).None? <==> forall c: nat | c < n :: oracle(v, c).None?
    {
      FirstErrorIff(oracle, v, 0, n);
    }
    AnyHostIff(Final(w).hosts, HostState.Complete);
    if v: nat, c: nat :| v < |w.visits| && c < n && oracle(v, c).Some? {
      assert Outcome(w, v).Some?;
    }
  }

  lemma {:induction false} AttemptsBounded(oracle: Oracle, v: nat, start: nat, n: nat)
    requires start <= n
    ensures Attempts(oracle, v, start, n) <= n - start
    decreases n - start
  {
    if start < n {
      AttemptsBounded(oracle, v, start + 1, n);
    }
  }

  /** The callbacks are called visit after visit, and on each visit one after the other for its host, up to and
      including the first that raises. */
  lemma {:induction false} CallNumber(w: Plan, k: nat, v: nat, c: nat)
    requires v < k <= |w.visits| && c < w.n && forall b: nat | b < c :: w.oracle(v, b).None?
    ensures var calls, before := CallsOf(w, k), |CallsOf(w, v)|;
            && before + c < |calls| && calls[before + c] == (w.visits[v], c)
            && (w.oracle(v, c).Some? || c == w.n - 1 ==> |CallsOf(w, v + 1)| == before + c + 1)
    decreases k
  {
    CalledUntilFirstError(w.oracle, v, 0, w.n, c);
    AttemptsBounded(w.oracle, v, 0, w.n);
    if c + 1 < w.n {
      CalledUntilFirstError(w.oracle, v, 0, w.n, c + 1);
    }
    if v < k - 1 {
      CallNumber(w, k - 1, v, c);
    }
  }

  /** COMPLETE and FAILED are only ever claimed of all hosts together. */
  ghost predicate Honest(d: Definition) {
    && (d.state == ClusterState.Complete ==> AllHosts(d.hosts, HostState.Complete))
    && (d.state == ClusterState.Failed ==> AllHosts(d.hosts, HostState.Failed))
  }

  lemma FinalIsHonest(d: Definition, oracle: Oracle, n: nat)
    ensures Honest(Final(PlanFor(d, oracle, n)))
  {
    var f := Final(PlanFor(d, oracle, n));
    forall p: nat | p < |f.hosts|
      ensures Finished(f.hosts[p])
      ensures f.state == ClusterState.Complete ==> f.hosts[p].state == HostState.Complete
    {
      EveryHostFinishes(d, oracle, n, p);
    }
    if f.state == ClusterState.Failed {
      forall h <- f.hosts
        ensures h.state == HostState.Failed
      {
        assert !SomeHost(f.hosts, HostState.Complete);
      }
    }
  }

  lemma {:induction false} SaveOfVisit(w: Plan, v: nat, u: nat)
    requires w.Valid() && u < v <= |w.visits|
    ensures SavesUpTo(w, v)[2 * u] == During(w, u) && SavesUpTo(w, v)[2 * u + 1] == AfterVisits(w, u + 1)
    decreases v
  {
    if u < v - 1 {
      SaveOfVisit(w, v - 1, u);
    }
  }

  lemma SaveNumber(w: Plan, t: nat)
    requires w.Valid() && t < 2 * |w.visits|
    ensures Saves(w)[t] == if t % 2 == 0 then During(w, t / 2) else AfterVisits(w, t / 2 + 1)
  {
    SaveOfVisit(w, |w.visits|, t / 2);
  }

  // ---------- Snapshots of a workflow that visits each host once ----------

  /** A record while visit v is under way (`done` false) or has just ended: its host's predecessors in the
      visiting order are finished, its successors untouched. */
  ghost predicate MidWorkflow(w: Plan, s: Definition, v: nat, done: bool)
    requires w.Valid() && v < |w.visits| && |s.hosts| == |w.d.hosts|
  {
    && s.state == ClusterState.Provisioning
    && forall u | 0 <= u < |w.visits| ::
         var h, original := s.hosts[w.visits[u]], w.d.hosts[w.visits[u]];
         if u < v || (u == v && done) then h == Finish(original, Outcome(w, u))
         else if u == v then h == original.(state := HostState.Provisioning)
         else h == original
  }

  lemma HostOnItsVisit(w: Plan, k: nat, u: nat)
    requires w.Valid() && NoDuplicates(w.visits) && k <= |w.visits| && u < |w.visits|
    ensures var p := w.visits[u];
            AfterVisits(w, k).hosts[p] == if u < k then Finish(w.d.hosts[p], Outcome(w, u)) else w.d.hosts[p]
  {
    if u < k {
      LastVisitDecides(w, k, u);
      UnvisitedIsUnchanged(w, u, w.visits[u]);
    } else {
      UnvisitedIsUnchanged(w, k, w.visits[u]);
    }
  }

  lemma EndOfVisit(w: Plan, v: nat)
    requires w.Valid() && NoDuplicates(w.visits) && v < |w.visits|
    ensures MidWorkflow(w, AfterVisits(w, v + 1), v, true)
  {
    forall u: nat | u < |w.visits|
      ensures AfterVisits(w, v + 1).hosts[w.visits[u]]
              == if u < v + 1 then Finish(w.d.hosts[w.visits[u]], Outcome(w, u)) else w.d.hosts[w.visits[u]]
    {
      HostOnItsVisit(w, v + 1, u);
    }
  }

  lemma MiddleOfVisit(w: Plan, v: nat)
    requires w.Valid() && NoDuplicates(w.visits) && v < |w.visits|
    ensures MidWorkflow(w, During(w, v), v, false)
  {
    forall u: nat | u < |w.visits|
      ensures AfterVisits(w, v).hosts[w.visits[u]]
              == if u < v then Finish(w.d.hosts[w.visits[u]], Outcome(w, u)) else w.d.hosts[w.visits[u]]
    {
      HostOnItsVisit(w, v, u);
    }
  }

  /** There are exactly 2n + 1 saves; every one before the last is a record in the middle of visit t / 2. */
  lemma SavesShowProgress(d: Definition, oracle: Oracle, n: nat, t: nat)
    requires NoPopulatedRepeat(d) && t < 2 * |d.hosts|
    ensures var w := PlanFor(d, oracle, n);
            && |w.visits| == |d.hosts| && |Saves(w)| == 2 * |d.hosts| + 1
            && |Saves(w)[t].hosts| == |d.hosts| && MidWorkflow(w, Saves(w)[t], t / 2, t % 2 == 1)
  {
    var w := PlanFor(d, oracle, n);
    VisitedOnceIff(d);
    SaveNumber(w, t);
    if t % 2 == 0 {
      MiddleOfVisit(w, t / 2);
    } else {
      EndOfVisit(w, t / 2);
    }
  }

  /** Hence, if none was provisioning at the start, at most one host is in any save, and it is the host
      being visited. */
  lemma OneHostProvisioning(d: Definition, oracle: Oracle, n: nat, t: nat, p: nat)
    requires NoPopulatedRepeat(d) && t < 2 * |d.hosts| && p < |d.hosts|
    requires forall h <- d.hosts :: h.state != HostState.Provisioning
    ensures var w := PlanFor(d, oracle, n);
            && |w.visits| == |d.hosts| && |Saves(w)[t].hosts| == |d.hosts|
            && (Saves(w)[t].hosts[p].state == HostState.Provisioning <==> p == w.visits[t / 2] && t % 2 == 0)
  {
    var w := PlanFor(d, oracle, n);
    SavesShowProgress(d, oracle, n, t);
    VisitedOnceIff(d);
    EveryHostIsVisited(d, p);
    var u :| 0 <= u < |w.visits| && w.visits[u] == p;
    assert d.hosts[p] in d.hosts;
  }

  // ---------- Classification ----------

  function Classify(hosts: seq<Host>): ClusterState {
    if AllHosts(hosts, HostState.Complete) then ClusterState.Complete
    else if AllHosts(hosts, HostState.Failed) then ClusterState.Failed
    else ClusterState.Partial
  }

  lemma ClassifyMixed(hosts: seq<Host>)
    requires forall h <- hosts :: Finished(h)
    ensures hosts != [] && !SomeHost(hosts, HostState.Complete) ==> Classify(hosts) == ClusterState.Failed
    ensures SomeHost(hosts, HostState.Complete) && SomeHost(hosts, HostState.Failed) ==> Classify(hosts) == ClusterState.Partial
  {
    if hosts != [] {
      assert hosts[0] in hosts;
    }
  }

  /** A mark that leaves no host pending or provisioning leaves the exact classification, whatever the
      state was before. */
  lemma MarkClassifies(d: Definition, p: nat, error: string)
    requires p < |d.hosts|
    ensures (forall h <- CompleteAt(d, p).hosts :: Finished(h)) ==> CompleteAt(d, p).state == Classify(CompleteAt(d, p).hosts)
    ensures (forall h <- FailAt(d, p, error).hosts :: Finished(h)) ==> FailAt(d, p, error).state == Classify(FailAt(d, p, error).hosts)
  {
    var c, f := CompleteAt(d, p), FailAt(d, p, error);
    assert c.hosts[p] in c.hosts && f.hosts[p] in f.hosts;
    if forall h <- f.hosts :: Finished(h) {
      ClassifyMixed(f.hosts);
    }
    if forall h <- c.hosts :: Finished(h) {
      ClassifyMixed(c.hosts);
      assert SomeHost(c.hosts, HostState.Complete);
      if !AllHosts(c.hosts, HostState.Complete) {
        assert SomeHost(c.hosts, HostState.Failed);
      }
    }
  }

  ghost predicate Classified(d: Definition, oracle: Oracle, n: nat) {
    Final(PlanFor(d, oracle, n)).state == Classify(Final(PlanFor(d, oracle, n)).hosts)
  }

  lemma WorkflowClassifies(d: Definition, oracle: Oracle, n: nat)
    requires NoPopulatedRepeat(d)
    ensures Classified(d, oracle, n)
  {
    var w := PlanFor(d, oracle, n);
    var f := Final(w);
    VisitedOnceIff(d);
    FinalIsHonest(d, oracle, n);
    forall h <- f.hosts
      ensures Finished(h)
    {
      var p :| 0 <= p < |f.hosts| && f.hosts[p] == h;
      EveryHostFinishes(d, oracle, n, p);
    }
    ClassifyMixed(f.hosts);
    if !AllSucceed(w, |w.visits|) {
      var v: nat :| v < |w.visits| && Outcome(w, v).Some?;
      LastVisitDecides(w, |w.visits|, v);
      assert f.hosts[w.visits[v]].state == HostState.Failed;
      assert f.hosts[w.visits[v]] in f.hosts;
      assert SomeHost(f.hosts, HostState.Failed);
    }
  }

  /** Fails the only callback on visit `bad` alone. */
  function FailsOn(bad: nat): Oracle {
    (v: nat, c: nat) => if v == bad then Some("failed") else None
  }

  /** If a host is visited at a and again at b, a failure on visit a alone makes the workflow report
      PARTIAL although every host ends COMPLETE. */
  lemma RepeatMisclassifies(d: Definition, a: nat, b: nat)
    requires a < b < |Visits(d)| && Visits(d)[a] == Visits(d)[b]
    ensures !Classified(d, FailsOn(a), 1)
  {
    var w := PlanFor(d, FailsOn(a), 1);
    var f := Final(w);
    forall v: nat
      ensures Outcome(w, v) == if v == a then Some("failed") else None
    {
      assert FirstError(w.oracle, v, 1, 1) == None;
    }
    forall h <- f.hosts
      ensures h.state == HostState.Complete
    {
      var p: nat :| p < |f.hosts| && f.hosts[p] == h;
      EveryHostIsVisited(d, p);
      assert w.visits[..|w.visits|] == w.visits;
      var u := LastVisit(w.visits, p, |w.visits|);
      assert u != a;
      LastVisitDecides(w, |w.visits|, u);
    }
    assert Outcome(w, a).Some?;
    assert AllHosts(f.hosts, HostState.Complete);
  }

  /** A finished workflow always reports the classification of its hosts exactly when no role that some
      host has is repeated in the provisioning order. */
  lemma WorkflowClassifiesIff(d: Definition)
    ensures (forall oracle: Oracle, n: nat :: Classified(d, oracle, n)) <==> NoPopulatedRepeat(d)
  {
    if NoPopulatedRepeat(d) {
      forall oracle: Oracle, n: nat
        ensures Classified(d, oracle, n)
      {
        WorkflowClassifies(d, oracle, n);
      }
    } else {
      VisitedOnceIff(d);
      var a, b :| 0 <= a < b < |Visits(d)| && Visits(d)[a] == Visits(d)[b];
      RepeatMisclassifies(d, a, b);
    }
  }

  // ---------- Runs ----------

  /** A workflow cut off after save number t, or a mark. */
  datatype Step =
    | Start(oracle: Oracle, n: nat, t: nat)
    | MarkComplete(mac: string)
    | MarkFailed(mac: string, error: string)

  /** The stored record after a step; a refused step changes nothing. */
  ghost function Apply(d: Definition, step: Step): Definition {
    match step
    case Start(oracle, n, t) =>
      var w := PlanFor(d, oracle, n);
      if d.state == ClusterState.Provisioning || t >= |Saves(w)| then d else Saves(w)[t]
    case MarkComplete(mac) =>
      (match FindHost(d.hosts, mac) case None => d case Some(p) => CompleteAt(d, p))
    case MarkFailed(mac, error) =>
      (match FindHost(d.hosts, mac) case None => d case Some(p) => FailAt(d, p, error))
  }

  ghost function Stored(d: Definition, steps: seq<Step>): Definition {
    if steps == [] then d else Apply(Stored(d, steps[..|steps| - 1]), steps[|steps| - 1])
  }

  lemma StartKeepsHonest(d: Definition, oracle: Oracle, n: nat, t: nat)
    requires t < |Saves(PlanFor(d, oracle, n))|
    ensures Honest(Saves(PlanFor(d, oracle, n))[t])
  {
    var w := PlanFor(d, oracle, n);
    if t < 2 * |w.visits| {
      SaveNumber(w, t);
    } else {
      FinalIsHonest(d, oracle, n);
    }
  }

  lemma CompleteKeepsHonest(d: Definition, p: nat)
    requires p < |d.hosts| && Honest(d)
    ensures Honest(CompleteAt(d, p))
  {
    var c := CompleteAt(d, p);
    if c.state == d.state && !AllHosts(c.hosts, HostState.Complete) {
      var i :| 0 <= i < |c.hosts| && c.hosts[i].state != HostState.Complete;
      assert c.hosts[i] == d.hosts[i] && d.hosts[i] in d.hosts && c.hosts[i] in c.hosts;
    }
  }

  lemma FailKeepsHonest(d: Definition, p: nat, error: string)
    requires p < |d.hosts| && Honest(d)
    ensures Honest(FailAt(d, p, error))
  {
    var f := FailAt(d, p, error);
    if f.state == d.state && !AllHosts(f.hosts, HostState.Failed) {
      var i :| 0 <= i < |f.hosts| && f.hosts[i].state != HostState.Failed;
      assert f.hosts[i] == d.hosts[i] && d.hosts[i] in d.hosts && f.hosts[i] in f.hosts;
    }
    assert f.hosts[p] in f.hosts;
  }

  /** In every run of workflows and marks on a cluster whose state is honest, such as one created DEFINED, a
      stored COMPLETE means every host is COMPLETE and a stored FAILED means every host is FAILED. */
  lemma {:induction false} StoredStateIsHonest(d: Definition, steps: seq<Step>)
    requires Honest(d)
    ensures Honest(Stored(d, steps))
    decreases |steps|
  {
    if steps != [] {
      var before, step := Stored(d, steps[..|steps| - 1]), steps[|steps| - 1];
      StoredStateIsHonest(d, steps[..|steps| - 1]);
      match step {
        case Start(oracle, n, t) =>
          if t < |Saves(PlanFor(before, oracle, n))| {
            StartKeepsHonest(before, oracle, n, t);
          }
        case MarkComplete(mac) =>
          var found := FindHost(before.hosts, mac);
          if found.Some? {
            CompleteKeepsHonest(before, found.value);
          }
        case MarkFailed(mac, error) =>
          var found := FindHost(before.hosts, mac);
          if found.Some? {
            FailKeepsHonest(before, found.value, error);
          }
      }
    }
  }

  // ---------- Overlapping operations ----------

  /** An operation that has loaded the record and still has to save: a workflow whose next save is number t
      of those it makes, or a mark with its one result. */
  datatype Pending =
    | Workflow(loaded: Definition, oracle: Oracle, n: nat, t: nat)
    | Mark(result: Definition)

  datatype System = System(stored: Definition, pending: seq<Pending>)

  /** Operations load and save without a lock: any pending operation may be the next to save, and one that
      is never chosen again has crashed. */
  datatype Action =
    | LoadStart(oracle: Oracle, n: nat)
    | LoadComplete(mac: string)
    | LoadFailed(mac: string, error: string)
    | Save(i: nat)

  ghost function Do(s: System, a: Action): System {
    match a
    case LoadStart(oracle, n) =>
      if s.stored.state == ClusterState.Provisioning then s
      else s.(pending := s.pending + [Workflow(s.stored, oracle, n, 0)])
    case LoadComplete(mac) =>
      var found := FindHost(s.stored.hosts, mac);
      if found.None? then s else s.(pending := s.pending + [Mark(CompleteAt(s.stored, found.value))])
    case LoadFailed(mac, error) =>
      var found := FindHost(s.stored.hosts, mac);
      if found.None? then s else s.(pending := s.pending + [Mark(FailAt(s.stored, found.value, error))])
    case Save(i) =>
      if i >= |s.pending| then s
      else match s.pending[i]
        case Workflow(d, oracle, n, t) =>
          if t >= |Saves(PlanFor(d, oracle, n))| then s
          else System(Saves(PlanFor(d, oracle, n))[t], s.pending[i := Workflow(d, oracle, n, t + 1)])
        case Mark(result) => System(result, s.pending[..i] + s.pending[i + 1..])
  }

  ghost function SystemAfter(d: Definition, actions: seq<Action>): System {
    if actions == [] then System(d, []) else Do(SystemAfter(d, actions[..|actions| - 1]), actions[|actions| - 1])
  }

  ghost predicate HonestSystem(s: System) {
    Honest(s.stored) && forall p <- s.pending | p.Mark? :: Honest(p.result)
  }

  lemma ActionKeepsHonest(s: System, a: Action)
    requires HonestSystem(s)
    ensures HonestSystem(Do(s, a))
  {
    match a {
      case LoadStart(_, _) =>
      case LoadComplete(mac) =>
        var found := FindHost(s.stored.hosts, mac);
        if found.Some? {
          CompleteKeepsHonest(s.stored, found.value);
        }
      case LoadFailed(mac, error) =>
        var found := FindHost(s.stored.hosts, mac);
        if found.Some? {
          FailKeepsHonest(s.stored, found.value, error);
        }
      case Save(i) =>
        if i < |s.pending| && s.pending[i].Workflow? && s.pending[i].t < |Saves(PlanFor(s.pending[i].loaded, s.pending[i].oracle, s.pending[i].n))| {
          StartKeepsHonest(s.pending[i].loaded, s.pending[i].oracle, s.pending[i].n, s.pending[i].t);
        }
    }
  }

  /** However workflows and marks overlap, and wherever they are cut off, a stored COMPLETE means every host
      is COMPLETE and a stored FAILED means every host is FAILED. */
  lemma {:induction false} OverlappingStateIsHonest(d: Definition, actions: seq<Action>)
    requires Honest(d)
    ensures HonestSystem(SystemAfter(d, actions))
    decreases |actions|
  {
    if actions != [] {
      OverlappingStateIsHonest(d, actions[..|actions| - 1]);
      ActionKeepsHonest(SystemAfter(d, actions[..|actions| - 1]), actions[|actions| - 1]);
    }
  }

  /** The actions of a workflow that nothing overlaps, up to its save number t. */
  function Alone(oracle: Oracle, n: nat, t: nat): (actions: seq<Action>)
    ensures |actions| == t + 2
  {
    [LoadStart(oracle, n)] + seq(t + 1, _ => Save(0))
  }

  lemma NextSave(s: System, d: Definition, oracle: Oracle, n: nat, t: nat)
    requires s.pending == [Workflow(d, oracle, n, t)] && t < |Saves(PlanFor(d, oracle, n))|
    ensures Do(s, Save(0)) == System(Saves(PlanFor(d, oracle, n))[t], [Workflow(d, oracle, n, t + 1)])
  {
  }

  lemma Loaded(d: Definition, oracle: Oracle, n: nat)
    requires d.state != ClusterState.Provisioning
    ensures SystemAfter(d, [LoadStart(oracle, n)]) == System(d, [Workflow(d, oracle, n, 0)])
  {
    assert [LoadStart(oracle, n)][..0] == [];
    assert [] + [Workflow(d, oracle, n, 0)] == [Workflow(d, oracle, n, 0)];
  }

  /** A workflow that nothing overlaps leaves its save number t in the store. */
  lemma {:induction false} AloneLeavesSave(d: Definition, oracle: Oracle, n: nat, t: nat)
    requires d.state != ClusterState.Provisioning && t < |Saves(PlanFor(d, oracle, n))|
    ensures SystemAfter(d, Alone(oracle, n, t))
            == System(Saves(PlanFor(d, oracle, n))[t], [Workflow(d, oracle, n, t + 1)])
  {
    var actions := Alone(oracle, n, t);
    if t == 0 {
      assert actions[..|actions| - 1] == [LoadStart(oracle, n)];
      Loaded(d, oracle, n);
    } else {
      assert actions[..|actions| - 1] == Alone(oracle, n, t - 1);
      AloneLeavesSave(d, oracle, n, t - 1);
    }
    assert actions[|actions| - 1] == Save(0);
    NextSave(SystemAfter(d, actions[..|actions| - 1]), d, oracle, n, t);
  }

  /** One operation after the other is a special case of overlapping ones: what a step leaves in the store a
      workflow alone leaves there, up to the same save. */
  lemma StepIsAlone(d: Definition, oracle: Oracle, n: nat, t: nat)
    requires d.state != ClusterState.Provisioning && t < |Saves(PlanFor(d, oracle, n))|
    ensures Apply(d, Start(oracle, n, t)) == SystemAfter(d, Alone(oracle, n, t)).stored == Saves(PlanFor(d, oracle, n))[t]
  {
    AloneLeavesSave(d, oracle, n, t);
  }

  lemma TwoActions(d: Definition, a: Action, b: Action)
    ensures SystemAfter(d, [a, b]) == Do(Do(System(d, []), a), b)
  {
    assert [a][..0] == [];
    assert SystemAfter(d, [a]) == Do(System(d, []), a);
    assert [a, b][..1] == [a];
    assert SystemAfter(d, [a, b]) == Do(SystemAfter(d, [a, b][..1]), [a, b][1]);
  }

  /** The same for the marks. */
  lemma CompleteIsAlone(d: Definition, mac: string, p: nat)
    requires FindHost(d.hosts, mac) == Some(p)
    ensures Apply(d, MarkComplete(mac)) == SystemAfter(d, [LoadComplete(mac), Save(0)]).stored == CompleteAt(d, p)
  {
    TwoActions(d, LoadComplete(mac), Save(0));
    var s := Do(System(d, []), LoadComplete(mac));
    assert s.pending == [] + [Mark(CompleteAt(d, p))];
    assert s.pending[0] == Mark(CompleteAt(d, p));
  }

  lemma FailIsAlone(d: Definition, mac: string, error: string, p: nat)
    requires FindHost(d.hosts, mac) == Some(p)
    ensures Apply(d, MarkFailed(mac, error)) == SystemAfter(d, [LoadFailed(mac, error), Save(0)]).stored == FailAt(d, p, error)
  {
    TwoActions(d, LoadFailed(mac, error), Save(0));
    var s := Do(System(d, []), LoadFailed(mac, error));
    assert s.pending == [] + [Mark(FailAt(d, p, error))];
    assert s.pending[0] == Mark(FailAt(d, p, error));
  }
}
