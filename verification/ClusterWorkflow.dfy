/** The provisioning workflow and the manual marks of tftpos/cluster.py: the manager over its store, and
    what holds of every record it ever saves. */
module ClusterWorkflow {
  import opened Common
  import opened Cluster

  /** What callback c raises when the workflow makes its visit number v; None when it returns. */
  type Oracle = (nat, nat) -> Option<string>

  // ---------- One visit ----------

  /** The error of the first failing callback among c, c + 1, ..., n - 1. */
  function FirstError(oracle: Oracle, v: nat, c: nat, n: nat): Option<string>
    requires c <= n
    decreases n - c
  {
    if c == n then None else if oracle(v, c).Some? then oracle(v, c) else FirstError(oracle, v, c + 1, n)
  }

  /** How many of those callbacks are called: up to and including the first that fails. */
  function Attempts(oracle: Oracle, v: nat, c: nat, n: nat): nat
    requires c <= n
    decreases n - c
  {
    if c == n then 0 else if oracle(v, c).Some? then 1 else 1 + Attempts(oracle, v, c + 1, n)
  }

  /** The first error is the least callback's that raises, and none exactly if none raises. */
  lemma {:induction false} FirstErrorIff(oracle: Oracle, v: nat, start: nat, n: nat)
    requires start <= n
    ensures FirstError(oracle, v, start, n).None? <==> forall c: nat | start <= c < n :: oracle(v, c).None?
    ensures forall c: nat | start <= c < n && oracle(v, c).Some? && (forall b: nat | start <= b < c :: oracle(v, b).None?) ::
              FirstError(oracle, v, start, n) == oracle(v, c)
    decreases n - start
  {
    if start < n {
      FirstErrorIff(oracle, v, start + 1, n);
    }
  }

  /** Success leaves an earlier error message in place. */
  function Finish(h: Host, error: Option<string>): Host {
    match error
    case None => h.(state := HostState.Complete)
    case Some(e) => h.(state := HostState.Failed, error := e)
  }

  function WithHost(d: Definition, p: nat, h: Host): Definition
    requires p < |d.hosts|
  {
    d.(hosts := d.hosts[p := h])
  }

  // ---------- The records a workflow saves ----------

  /** One workflow: the record it starts from, the host positions it visits, its n callbacks. */
  datatype Plan = Plan(d: Definition, visits: seq<nat>, oracle: Oracle, n: nat) {
    ghost predicate Valid() {
      forall a | 0 <= a < |visits| :: visits[a] < |d.hosts|
    }
  }

  function PlanFor(d: Definition, oracle: Oracle, n: nat): (w: Plan)
    ensures w.Valid()
  {
    Plan(d, Visits(d), oracle, n)
  }

  /** The outcome of visit v. */
  function Outcome(w: Plan, v: nat): Option<string> {
    FirstError(w.oracle, v, 0, w.n)
  }

  function AfterVisits(w: Plan, k: nat): (r: Definition)
    requires w.Valid() && k <= |w.visits|
    ensures |r.hosts| == |w.d.hosts| && r.name == w.d.name && r.order == w.d.order && r.state == ClusterState.Provisioning
  {
    if k == 0 then w.d.(state := ClusterState.Provisioning)
    else
      var before, p := AfterVisits(w, k - 1), w.visits[k - 1];
      WithHost(before, p, Finish(before.hosts[p], Outcome(w, k - 1)))
  }

  function During(w: Plan, k: nat): Definition
    requires w.Valid() && k < |w.visits|
  {
    var before, p := AfterVisits(w, k), w.visits[k];
    WithHost(before, p, before.hosts[p].(state := HostState.Provisioning))
  }

  ghost predicate AllSucceed(w: Plan, k: nat) {
    forall v: nat | v < k :: Outcome(w, v).None?
  }

  predicate SomeHost(hosts: seq<Host>, state: HostState) {
    exists h <- hosts :: h.state == state
  }

  ghost function Final(w: Plan): Definition
    requires w.Valid()
  {
    var last := AfterVisits(w, |w.visits|);
    last.(state := if AllSucceed(w, |w.visits|) then ClusterState.Complete
                   else if SomeHost(last.hosts, HostState.Complete) then ClusterState.Partial
                   else ClusterState.Failed)
  }

  /** The records saved by the first v visits: two each. */
  function SavesUpTo(w: Plan, v: nat): (s: seq<Definition>)
    requires w.Valid() && v <= |w.visits|
    ensures |s| == 2 * v
  {
    if v == 0 then [] else SavesUpTo(w, v - 1) + [During(w, v - 1), AfterVisits(w, v)]
  }

  ghost function Saves(w: Plan): (s: seq<Definition>)
    requires w.Valid()
    ensures |s| == 2 * |w.visits| + 1
  {
    SavesUpTo(w, |w.visits|) + [Final(w)]
  }

  /** The callbacks called in the first k visits, as (host position, callback). */
  function CallsOf(w: Plan, k: nat): seq<(nat, nat)>
    requires k <= |w.visits|
  {
    if k == 0 then []
    else CallsOf(w, k - 1) + VisitCalls(w.visits[k - 1], Attempts(w.oracle, k - 1, 0, w.n))
  }

  function VisitCalls(p: nat, count: nat): seq<(nat, nat)> {
    seq(count, c => (p, c))
  }

  // ---------- Marks ----------

  /** The first host with this MAC, letter case aside. */
  function FindHost(hosts: seq<Host>, mac: string): (p: Option<nat>)
    ensures p.Some? ==> p.value < |hosts| && Lower(hosts[p.value].mac) == Lower(mac)
    ensures p.Some? ==> forall i | 0 <= i < p.value :: Lower(hosts[i].mac) != Lower(mac)
    ensures p.None? ==> forall i | 0 <= i < |hosts| :: Lower(hosts[i].mac) != Lower(mac)
  {
    if hosts == [] then None
    else if Lower(hosts[0].mac) == Lower(mac) then Some(0)
    else match FindHost(hosts[1..], mac)
      case None => None
      case Some(p) => Some(p + 1)
  }

  predicate AllHosts(hosts: seq<Host>, state: HostState) {
    forall h <- hosts :: h.state == state
  }

  function CompleteAt(d: Definition, p: nat): Definition
    requires p < |d.hosts|
  {
    var e := WithHost(d, p, d.hosts[p].(state := HostState.Complete));
    if AllHosts(e.hosts, HostState.Complete) then e.(state := ClusterState.Complete)
    else if SomeHost(e.hosts, HostState.Failed) then e.(state := ClusterState.Partial)
    else e
  }

  function FailAt(d: Definition, p: nat, error: string): Definition
    requires p < |d.hosts|
  {
    var e := WithHost(d, p, d.hosts[p].(state := HostState.Failed, error := error));
    if SomeHost(e.hosts, HostState.Complete) then e.(state := ClusterState.Partial)
    else if AllHosts(e.hosts, HostState.Failed) then e.(state := ClusterState.Failed)
    else e
  }

  /** The host is complete and otherwise as before, like all others. The cluster is COMPLETE if all hosts are,
      else PARTIAL if one has failed, also while others are pending, else as before. */
  lemma CompleteAtIs(d: Definition, p: nat)
    requires p < |d.hosts|
    ensures var e := CompleteAt(d, p);
            && |e.hosts| == |d.hosts| && e.name == d.name && e.order == d.order
            && e.hosts[p] == d.hosts[p].(state := HostState.Complete)
            && (forall i | 0 <= i < |d.hosts| && i != p :: e.hosts[i] == d.hosts[i])
            && e.state == if forall i | 0 <= i < |d.hosts| :: e.hosts[i].state == HostState.Complete then ClusterState.Complete
                          else if exists i :: 0 <= i < |d.hosts| && e.hosts[i].state == HostState.Failed then ClusterState.Partial
                          else d.state
  {
    var e := CompleteAt(d, p);
    AnyHostIff(e.hosts, HostState.Failed);
    EachHostIff(e.hosts, HostState.Complete);
  }

  /** The host has failed with this error and is otherwise as before, like all others. The cluster is PARTIAL
      if a host is complete, also while others are pending, else FAILED if all have failed, else as before. */
  lemma FailAtIs(d: Definition, p: nat, error: string)
    requires p < |d.hosts|
    ensures var e := FailAt(d, p, error);
            && |e.hosts| == |d.hosts| && e.name == d.name && e.order == d.order
            && e.hosts[p] == d.hosts[p].(state := HostState.Failed, error := error)
            && (forall i | 0 <= i < |d.hosts| && i != p :: e.hosts[i] == d.hosts[i])
            && e.state == if exists i :: 0 <= i < |d.hosts| && e.hosts[i].state == HostState.Complete then ClusterState.Partial
                          else if forall i | 0 <= i < |d.hosts| :: e.hosts[i].state == HostState.Failed then ClusterState.Failed
                          else d.state
  {
    var e := FailAt(d, p, error);
    AnyHostIff(e.hosts, HostState.Complete);
    EachHostIff(e.hosts, HostState.Failed);
  }

  lemma AnyHostIff(hosts: seq<Host>, state: HostState)
    ensures SomeHost(hosts, state) <==> exists i :: 0 <= i < |hosts| && hosts[i].state == state
  {
    if i :| 0 <= i < |hosts| && hosts[i].state == state {
      assert hosts[i] in hosts;
    }
  }

  lemma EachHostIff(hosts: seq<Host>, state: HostState)
    ensures AllHosts(hosts, state) <==> forall i | 0 <= i < |hosts| :: hosts[i].state == state
  {
    if AllHosts(hosts, state) {
      forall i | 0 <= i < |hosts|
        ensures hosts[i].state == state
      {
        assert hosts[i] in hosts;
      }
    }
  }

  // ---------- Names ----------

  predicate AlphaNumeric(c: char) {
    'A' <= c <= 'Z' || 'a' <= c <= 'z' || '0' <= c <= '9'
  }

  /** The pattern for names: a letter or digit, then letters, digits, dots, underscores and hyphens. Its
      `$` also matches before a line feed at the very end. */
  predicate MatchesPattern(name: string) {
    && name != "" && AlphaNumeric(name[0])
    && forall i | 1 <= i < |name| :: AlphaNumeric(name[i]) || name[i] in "._-" || (name[i] == '\n' && i == |name| - 1)
  }

  /** What every operation that takes a name checks first. */
  predicate SafeName(name: string) {
    && name != ""
    && (forall i | 0 <= i < |name| - 1 :: !(name[i] == '.' && name[i + 1] == '.'))
    && '/' !in name && '\\' !in name
    && MatchesPattern(name)
  }

  /** A safe name is, but for one line feed at its end, one or more letters, digits, dots, underscores and
      hyphens, the first a letter or digit and no two dots together; hence it names a file in the directory. */
  lemma SafeNameIff(name: string)
    ensures var core := if name != "" && name[|name| - 1] == '\n' then name[..|name| - 1] else name;
            SafeName(name)
            <==> && core != "" && core[0] !in "._-"
                 && (forall i | 0 <= i < |core| ::
                       'A' <= core[i] <= 'Z' || 'a' <= core[i] <= 'z' || '0' <= core[i] <= '9' || core[i] in "._-")
                 && (forall i | 0 <= i < |core| - 1 :: core[i] != '.' || core[i + 1] != '.')
  {
    var core := if name != "" && name[|name| - 1] == '\n' then name[..|name| - 1] else name;
    assert forall i | 0 <= i < |core| :: core[i] == name[i];
  }

  // ---------- The manager ----------

  datatype Error = BadName | NotFound | AlreadyProvisioning | NoSuchHost | NoHosts | DuplicateMacs | DuplicateHostnames | AlreadyExists

  /** Files by cluster name; `saved` records every save in order. */
  class ClusterStore {
    var files: map<string, Definition>
    ghost var saved: seq<Definition>

    constructor ()
      ensures Valid() && files == map[] && saved == []
    {
      files, saved := map[], [];
    }

    /** Each file holds the cluster it is named after, and only safe names are used. */
    ghost predicate Valid()
      reads this
    {
      forall name | name in files :: files[name].name == name && SafeName(name)
    }

    method Save(d: Definition)
      modifies this
      ensures files == old(files)[d.name := d] && saved == old(saved) + [d]
    {
      files := files[d.name := d];
      saved := saved + [d];
    }
  }

  class ClusterManager {
    const store: ClusterStore
    ghost var calls: seq<(nat, nat)>

    constructor (store: ClusterStore)
      ensures this.store == store && calls == []
    {
      this.store, calls := store, [];
    }

    method CreateCluster(d: Definition) returns (r: Result<Definition, Error>)
      requires store.Valid()
      modifies store
      ensures store.Valid()
      ensures r.Ok? <==>
              && SafeName(d.name) && d.hosts != []
              && (forall i, j | 0 <= i < j < |d.hosts| ::
                    Lower(d.hosts[i].mac) != Lower(d.hosts[j].mac) && d.hosts[i].hostname != d.hosts[j].hostname)
              && d.name !in old(store.files)
      ensures r == Err(BadName) <==> !SafeName(d.name)
      ensures if r.Ok? then r.value == d && store.files == old(store.files)[d.name := d]
              else store.files == old(store.files)
    {
      if !SafeName(d.name) {
        return Err(BadName);
      }
      if d.hosts == [] {
        return Err(NoHosts);
      }
      var macs := LowerMacs(d.hosts);
      DistinctLength(macs);
      assert Elements(macs) == set m | m in macs;
      if |macs| != |set m | m in macs| {
        return Err(DuplicateMacs);
      }
      var hostnames := Hostnames(d.hosts);
      DistinctLength(hostnames);
      assert Elements(hostnames) == set m | m in hostnames;
      if |hostnames| != |set m | m in hostnames| {
        return Err(DuplicateHostnames);
      }
      assert forall i | 0 <= i < |d.hosts| :: macs[i] == Lower(d.hosts[i].mac) && hostnames[i] == d.hosts[i].hostname;
      if d.name in store.files {
        return Err(AlreadyExists);
      }
      store.Save(d);
      return Ok(d);
    }

    /** Calls the callbacks for one host, stopping at the first that raises. */
    method RunCallbacks(p: nat, oracle: Oracle, v: nat, n: nat) returns (error: Option<string>)
      modifies this
      ensures error == FirstError(oracle, v, 0, n)
      ensures error.None? <==> forall c: nat | c < n :: oracle(v, c).None?
      ensures calls == old(calls) + VisitCalls(p, Attempts(oracle, v, 0, n))
    {
      FirstErrorIff(oracle, v, 0, n);
      error := None;
      var c := 0;
      while c < n && error.None?
        invariant c <= n
        invariant calls == old(calls) + VisitCalls(p, c)
        invariant if error.Some? then FirstError(oracle, v, 0, n) == error && Attempts(oracle, v, 0, n) == c
                  else FirstError(oracle, v, 0, n) == FirstError(oracle, v, c, n)
                       && Attempts(oracle, v, 0, n) == c + Attempts(oracle, v, c, n)
        decreases n - c, error.None?
      {
        calls := calls + [(p, c)];
        assert VisitCalls(p, c + 1) == VisitCalls(p, c) + [(p, c)];
        error := oracle(v, c);
        c := c + 1;
      }
    }

    /** Marks one host as provisioning, saves, runs its callbacks, records the outcome, saves. */
    method VisitHost(cluster: Definition, p: nat, oracle: Oracle, v: nat, n: nat)
      returns (after: Definition, error: Option<string>)
      requires p < |cluster.hosts|
      modifies this, store
      ensures error == FirstError(oracle, v, 0, n)
      ensures after == WithHost(cluster, p, Finish(cluster.hosts[p], error))
      ensures after.hosts[p].state
              == if forall c: nat | c < n :: oracle(v, c).None? then HostState.Complete else HostState.Failed
      ensures store.saved == old(store.saved) + [WithHost(cluster, p, cluster.hosts[p].(state := HostState.Provisioning)), after]
      ensures store.files == old(store.files)[cluster.name := after]
      ensures calls == old(calls) + VisitCalls(p, Attempts(oracle, v, 0, n))
    {
      after := WithHost(cluster, p, cluster.hosts[p].(state := HostState.Provisioning));
      store.Save(after);
      error := RunCallbacks(p, oracle, v, n);
      if error.None? {
        after := WithHost(after, p, after.hosts[p].(state := HostState.Complete));
      } else {
        after := WithHost(after, p, after.hosts[p].(state := HostState.Failed, error := error.value));
      }
      store.Save(after);
    }

    method StartProvisioning(name: string, oracle: Oracle, n: nat) returns (r: Result<Definition, Error>)
      requires store.Valid()
      modifies this, store
      ensures store.Valid()
      ensures !SafeName(name) ==> r == Err(BadName)
      ensures SafeName(name) && name !in old(store.files) ==> r == Err(NotFound)
      ensures name in old(store.files) && old(store.files)[name].state == ClusterState.Provisioning ==> r == Err(AlreadyProvisioning)
      ensures r.Err? <==> name !in old(store.files) || old(store.files)[name].state == ClusterState.Provisioning
      ensures r.Err? ==> store.files == old(store.files) && store.saved == old(store.saved) && calls == old(calls)
      ensures r.Ok? ==>
                var w := PlanFor(old(store.files)[name], oracle, n);
                && r.value == Final(w)
                && store.files == old(store.files)[name := Final(w)]
                && store.saved == old(store.saved) + Saves(w)
                && calls == old(calls) + CallsOf(w, |w.visits|)
    {
      if !SafeName(name) {
        return Err(BadName);
      }
      if name !in store.files {
        return Err(NotFound);
      }
      var cluster := store.files[name];
      if cluster.state == ClusterState.Provisioning {
        return Err(AlreadyProvisioning);
      }
      ghost var w := PlanFor(cluster, oracle, n);
      var groups := OrderedGroups(cluster);
      cluster := RunWorkflow(w, cluster.(state := ClusterState.Provisioning), groups, oracle, n);
      return Ok(cluster);
    }

    /** Everything after the first state change: the visits, and the classification at the end. */
    method RunWorkflow(ghost w: Plan, start: Definition, groups: seq<seq<nat>>, oracle: Oracle, n: nat) returns (cluster: Definition)
      requires w.Valid() && w.oracle == oracle && w.n == n
      requires start == AfterVisits(w, 0) && w.visits == Flatten(groups)
      modifies this, store
      ensures cluster == Final(w)
      ensures store.files == old(store.files)[w.d.name := cluster]
      ensures store.saved == old(store.saved) + Saves(w)
      ensures calls == old(calls) + CallsOf(w, |w.visits|)
    {
      var allSucceeded;
      cluster, allSucceeded := VisitGroups(w, start, groups, oracle, n);
      ghost var saves := SavesUpTo(w, |w.visits|);
      cluster := cluster.(state := if allSucceeded then ClusterState.Complete
                                   else if SomeHost(cluster.hosts, HostState.Complete) then ClusterState.Partial
                                   else ClusterState.Failed);
      assert cluster == Final(w);
      store.Save(cluster);
      assert old(store.saved) + saves + [cluster] == old(store.saved) + (saves + [cluster]);
    }

    /** The outer loop: the groups, in order. */
    method VisitGroups(ghost w: Plan, start: Definition, groups0: seq<seq<nat>>, oracle: Oracle, n: nat)
      returns (cluster: Definition, allSucceeded: bool)
      requires w.Valid() && w.oracle == oracle && w.n == n
      requires start == AfterVisits(w, 0) && w.visits == Flatten(groups0)
      modifies this, store
      ensures cluster == AfterVisits(w, |w.visits|)
      ensures allSucceeded <==> AllSucceed(w, |w.visits|)
      ensures store.saved == old(store.saved) + SavesUpTo(w, |w.visits|)
      ensures calls == old(calls) + CallsOf(w, |w.visits|)
      ensures store.files == if w.visits == [] then old(store.files) else old(store.files)[w.d.name := cluster]
    {
      ghost var snapshots, made, saved, called, files := [], [], store.saved, calls, store.files;
      var groups, v: nat := groups0, 0;
      cluster, allSucceeded := start, true;
      while groups != []
        invariant Progress(w, v, cluster, allSucceeded, snapshots, made)
        invariant w.visits == w.visits[..v] + Flatten(groups)
        invariant store.saved == saved + snapshots && calls == called + made
        invariant store.files == if v == 0 then files else files[w.d.name := cluster]
        decreases |groups|
      {
        ghost var rest := Flatten(groups[1..]);
        cluster, allSucceeded, v, snapshots, made := VisitGroup(
          w, rest, snapshots, made, saved, called, files,
          cluster, groups[0], oracle, v, n, allSucceeded);
        groups := groups[1..];
      }
      assert v == |w.visits|;
    }

    /** The body of the inner loop. */
    method VisitNext(
      ghost w: Plan, ghost snapshots0: seq<Definition>, ghost made0: seq<(nat, nat)>,
      ghost saved: seq<Definition>, ghost called: seq<(nat, nat)>, ghost files: map<string, Definition>,
      start: Definition, p: nat, oracle: Oracle, v: nat, n: nat, succeeded: bool)
      returns (cluster: Definition, ok: bool, ghost snapshots: seq<Definition>, ghost made: seq<(nat, nat)>)
      requires w.Valid() && w.oracle == oracle && w.n == n && v < |w.visits| && w.visits[v] == p
      requires Progress(w, v, start, succeeded, snapshots0, made0)
      requires store.saved == saved + snapshots0 && calls == called + made0
      requires store.files == if v == 0 then files else files[w.d.name := start]
      modifies this, store
      ensures Progress(w, v + 1, cluster, ok, snapshots, made)
      ensures store.saved == saved + snapshots && calls == called + made
      ensures store.files == files[w.d.name := cluster]
    {
      ProgressStep(w, v, start, succeeded, snapshots0, made0);
      VisitStep(w, v);
      ghost var during, callsNow := During(w, v), VisitCalls(p, Attempts(oracle, v, 0, n));
      var error;
      cluster, error := VisitHost(start, p, oracle, v, n);
      snapshots, made := snapshots0 + [during, cluster], made0 + callsNow;
      assert saved + snapshots0 + [during, cluster] == saved + snapshots;
      assert called + made0 + callsNow == called + made;
      ok := succeeded && error.None?;
    }

    /** The inner loop: the hosts of one group, in order. `files`, `saved` and `called` are what the store
        and the manager held when the workflow began. */
    method VisitGroup(
      ghost w: Plan, ghost rest: seq<nat>, ghost snapshots0: seq<Definition>, ghost made0: seq<(nat, nat)>,
      ghost saved: seq<Definition>, ghost called: seq<(nat, nat)>, ghost files: map<string, Definition>,
      start: Definition, hosts: seq<nat>, oracle: Oracle, v0: nat, n: nat, succeeded: bool)
      returns (cluster: Definition, ok: bool, v: nat, ghost snapshots: seq<Definition>, ghost made: seq<(nat, nat)>)
      requires w.Valid() && w.oracle == oracle && w.n == n
      requires Progress(w, v0, start, succeeded, snapshots0, made0)
      requires w.visits == w.visits[..v0] + (hosts + rest)
      requires store.saved == saved + snapshots0 && calls == called + made0
      requires store.files == if v0 == 0 then files else files[w.d.name := start]
      modifies this, store
      ensures Progress(w, v, cluster, ok, snapshots, made)
      ensures w.visits == w.visits[..v] + rest
      ensures store.saved == saved + snapshots && calls == called + made
      ensures store.files == if v == 0 then files else files[w.d.name := cluster]
    {
      cluster, ok, v, snapshots, made := start, succeeded, v0, snapshots0, made0;
      var group := hosts;
      while group != []
        invariant Progress(w, v, cluster, ok, snapshots, made)
        invariant w.visits == w.visits[..v] + (group + rest)
        invariant store.saved == saved + snapshots && calls == called + made
        invariant store.files == if v == 0 then files else files[w.d.name := cluster]
        decreases |group|
      {
        NextVisit(w.visits, v, group, rest);
        cluster, ok, snapshots, made := VisitNext(
          w, snapshots, made, saved, called, files, cluster, group[0], oracle, v, n, ok);
        group := group[1..];
        v := v + 1;
      }
      assert group + rest == rest;
    }

    method FindByMac(hosts: seq<Host>, mac: string) returns (p: Option<nat>)
      ensures p == FindHost(hosts, mac)
    {
      var macLower := Lower(mac);
      for i := 0 to |hosts|
        invariant forall j | 0 <= j < i :: Lower(hosts[j].mac) != macLower
      {
        if Lower(hosts[i].mac) == macLower {
          return Some(i);
        }
      }
      return None;
    }

    method MarkHostComplete(name: string, mac: string) returns (r: Result<Definition, Error>)
      requires store.Valid()
      modifies store
      ensures store.Valid()
      ensures r == if !SafeName(name) then Err(BadName) else if name !in old(store.files) then Err(NotFound)
                   else match FindHost(old(store.files)[name].hosts, mac)
                     case None => Err(NoSuchHost)
                     case Some(p) => Ok(CompleteAt(old(store.files)[name], p))
      ensures store.files == if r.Ok? then old(store.files)[name := r.value] else old(store.files)
    {
      if !SafeName(name) {
        return Err(BadName);
      }
      if name !in store.files {
        return Err(NotFound);
      }
      var cluster := store.files[name];
      var host := FindByMac(cluster.hosts, mac);
      if host.None? {
        return Err(NoSuchHost);
      }
      var p := host.value;
      cluster := WithHost(cluster, p, cluster.hosts[p].(state := HostState.Complete));
      if AllHosts(cluster.hosts, HostState.Complete) {
        cluster := cluster.(state := ClusterState.Complete);
      } else if SomeHost(cluster.hosts, HostState.Failed) {
        cluster := cluster.(state := ClusterState.Partial);
      }
      store.Save(cluster);
      return Ok(cluster);
    }

    method MarkHostFailed(name: string, mac: string, error: string) returns (r: Result<Definition, Error>)
      requires store.Valid()
      modifies store
      ensures store.Valid()
      ensures r == if !SafeName(name) then Err(BadName) else if name !in old(store.files) then Err(NotFound)
                   else match FindHost(old(store.files)[name].hosts, mac)
                     case None => Err(NoSuchHost)
                     case Some(p) => Ok(FailAt(old(store.files)[name], p, error))
      ensures store.files == if r.Ok? then old(store.files)[name := r.value] else old(store.files)
    {
      if !SafeName(name) {
        return Err(BadName);
      }
      if name !in store.files {
        return Err(NotFound);
      }
      var cluster := store.files[name];
      var host := FindByMac(cluster.hosts, mac);
      if host.None? {
        return Err(NoSuchHost);
      }
      var p := host.value;
      cluster := WithHost(cluster, p, cluster.hosts[p].(state := HostState.Failed, error := error));
      if SomeHost(cluster.hosts, HostState.Complete) {
        cluster := cluster.(state := ClusterState.Partial);
      } else if AllHosts(cluster.hosts, HostState.Failed) {
        cluster := cluster.(state := ClusterState.Failed);
      }
      store.Save(cluster);
      return Ok(cluster);
    }
  }

  function LowerMacs(hosts: seq<Host>): seq<string> {
    seq(|hosts|, i requires 0 <= i < |hosts| => Lower(hosts[i].mac))
  }

  function Hostnames(hosts: seq<Host>): seq<string> {
    seq(|hosts|, i requires 0 <= i < |hosts| => hosts[i].hostname)
  }

  /** Where the workflow stands after v visits: the record, whether all have succeeded, what it has
      saved and which callbacks it has called. */
  ghost predicate Progress(w: Plan, v: nat, cluster: Definition, ok: bool, snapshots: seq<Definition>, made: seq<(nat, nat)>)
    requires w.Valid()
  {
    && v <= |w.visits|
    && cluster == AfterVisits(w, v)
    && (ok <==> AllSucceed(w, v))
    && snapshots == SavesUpTo(w, v)
    && made == CallsOf(w, v)
  }

  lemma AllSucceedStep(w: Plan, v: nat)
    ensures AllSucceed(w, v + 1) <==> AllSucceed(w, v) && Outcome(w, v).None?
  {
  }

  lemma VisitStep(w: Plan, v: nat)
    requires w.Valid() && v < |w.visits|
    ensures var before, p := AfterVisits(w, v), w.visits[v];
            && AfterVisits(w, v + 1) == WithHost(before, p, Finish(before.hosts[p], Outcome(w, v)))
            && During(w, v) == WithHost(before, p, before.hosts[p].(state := HostState.Provisioning))
  {
  }

  lemma LogStep(w: Plan, v: nat)
    requires w.Valid() && v < |w.visits|
    ensures SavesUpTo(w, v + 1) == SavesUpTo(w, v) + [During(w, v), AfterVisits(w, v + 1)]
    ensures CallsOf(w, v + 1) == CallsOf(w, v) + VisitCalls(w.visits[v], Attempts(w.oracle, v, 0, w.n))
  {
  }

  lemma ProgressStep(w: Plan, v: nat, cluster: Definition, ok: bool, snapshots: seq<Definition>, made: seq<(nat, nat)>)
    requires w.Valid() && v < |w.visits| && Progress(w, v, cluster, ok, snapshots, made)
    ensures Progress(w, v + 1, AfterVisits(w, v + 1), ok && Outcome(w, v).None?,
                     snapshots + [During(w, v), AfterVisits(w, v + 1)],
                     made + VisitCalls(w.visits[v], Attempts(w.oracle, v, 0, w.n)))
  {
    AllSucceedStep(w, v);
    LogStep(w, v);
  }

  lemma NextVisit(visits: seq<nat>, v: nat, group: seq<nat>, rest: seq<nat>)
    requires v <= |visits| && visits == visits[..v] + (group + rest) && group != []
    ensures v < |visits| && visits[v] == group[0]
    ensures visits == visits[..v + 1] + (group[1..] + rest)
  {
    assert visits[v] == (group + rest)[0];
    assert visits[v..] == group + rest;
    assert visits[v + 1..] == visits[v..][1..] == group[1..] + rest;
  }
}
