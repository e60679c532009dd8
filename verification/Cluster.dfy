/** Cluster records, the provisioning order, and what one workflow or mark does to a record
    (tftpos/cluster.py). A host is named by its position in the record's host list. */
module Cluster {
  import opened Common

  datatype ClusterState = Defined | Provisioning | Partial | Complete | Failed

  datatype HostState = Pending | Provisioning | Complete | Failed

  datatype Host = Host(hostname: string, mac: string, role: string, state: HostState, error: string)

  datatype Definition = Definition(name: string, hosts: seq<Host>, order: seq<string>, state: ClusterState)

  // ---------- Provisioning order ----------

  /** Positions below n of the hosts that satisfy `keep`, ascending. */
  function Where(hosts: seq<Host>, keep: Host -> bool, n: nat): (ps: seq<nat>)
    requires n <= |hosts|
    ensures forall a | 0 <= a < |ps| :: ps[a] < n && keep(hosts[ps[a]])
    ensures forall a, b | 0 <= a < b < |ps| :: ps[a] < ps[b]
  {
    if n == 0 then [] else Where(hosts, keep, n - 1) + (if keep(hosts[n - 1]) then [n - 1] else [])
  }

  lemma {:induction false} WhereComplete(hosts: seq<Host>, keep: Host -> bool, n: nat, p: nat)
    requires p < n <= |hosts| && keep(hosts[p])
    ensures p in Where(hosts, keep, n)
  {
    if p < n - 1 {
      WhereComplete(hosts, keep, n - 1, p);
    }
  }

  function HostsByRole(d: Definition, role: string): (ps: seq<nat>)
    ensures forall a | 0 <= a < |ps| :: ps[a] < |d.hosts| && d.hosts[ps[a]].role == role
    ensures forall a, b | 0 <= a < b < |ps| :: ps[a] < ps[b]
  {
    Where(d.hosts, (h: Host) => h.role == role, |d.hosts|)
  }

  function Unlisted(d: Definition): (ps: seq<nat>)
    ensures forall a | 0 <= a < |ps| :: ps[a] < |d.hosts| && d.hosts[ps[a]].role !in d.order
    ensures forall a, b | 0 <= a < b < |ps| :: ps[a] < ps[b]
  {
    Where(d.hosts, (h: Host) => h.role !in d.order, |d.hosts|)
  }

  function Flatten<T>(groups: seq<seq<T>>): seq<T> {
    if groups == [] then [] else groups[0] + Flatten(groups[1..])
  }

  lemma {:induction false} FlattenConcat<T>(a: seq<seq<T>>, b: seq<seq<T>>)
    ensures Flatten(a + b) == Flatten(a) + Flatten(b)
  {
    if a == [] {
      assert a + b == b;
    } else {
      assert (a + b)[1..] == a[1..] + b;
      FlattenConcat(a[1..], b);
    }
  }

  /** The positions visited for the first k roles of the order. */
  function Listed(d: Definition, k: nat): (ps: seq<nat>)
    requires k <= |d.order|
    ensures forall a | 0 <= a < |ps| :: ps[a] < |d.hosts|
  {
    if k == 0 then [] else Listed(d, k - 1) + HostsByRole(d, d.order[k - 1])
  }

  /** The order in which a workflow visits the hosts. */
  function Visits(d: Definition): (ps: seq<nat>)
    ensures forall a | 0 <= a < |ps| :: ps[a] < |d.hosts|
  {
    Listed(d, |d.order|) + Unlisted(d)
  }

  /** The hosts of one role of the order, or those whose role is not in it. */
  ghost predicate IsGroup(d: Definition, group: seq<nat>) {
    group != [] && (group == Unlisted(d) || exists k :: 0 <= k < |d.order| && group == HostsByRole(d, d.order[k]))
  }

  ghost predicate AreGroups(d: Definition, groups: seq<seq<nat>>) {
    forall g <- groups :: IsGroup(d, g)
  }

  /** Adds a group unless it is empty. */
  method AddGroup(groups: seq<seq<nat>>, group: seq<nat>, ghost d: Definition) returns (longer: seq<seq<nat>>)
    requires AreGroups(d, groups) && (group != [] ==> IsGroup(d, group))
    ensures AreGroups(d, longer) && Flatten(longer) == Flatten(groups) + group
  {
    longer := groups;
    if group != [] {
      FlattenConcat(groups, [group]);
      longer := groups + [group];
    }
  }

  method OrderedGroups(d: Definition) returns (groups: seq<seq<nat>>)
    ensures Flatten(groups) == Visits(d)
    ensures forall g <- groups ::
              g != [] && (g == Unlisted(d) || exists k :: 0 <= k < |d.order| && g == HostsByRole(d, d.order[k]))
  {
    groups := [];
    for k := 0 to |d.order|
      invariant Flatten(groups) == Listed(d, k)
      invariant AreGroups(d, groups)
    {
      groups := AddGroup(groups, HostsByRole(d, d.order[k]), d);
    }
    groups := AddGroup(groups, Unlisted(d), d);
    forall g <- groups
      ensures g != [] && (g == Unlisted(d) || exists k :: 0 <= k < |d.order| && g == HostsByRole(d, d.order[k]))
    {
      assert IsGroup(d, g);
    }
  }

  /** The position of a role in the order; roles that are not listed come last. */
  function Rank(order: seq<string>, role: string): (r: nat)
    ensures r <= |order|
    ensures r < |order| ==> order[r] == role
    ensures r == |order| <==> role !in order
  {
    if order == [] then 0 else if order[0] == role then 0 else 1 + Rank(order[1..], role)
  }

  /** No role that some host has occurs twice in the order. */
  ghost predicate NoPopulatedRepeat(d: Definition) {
    forall a, b, i | 0 <= a < b < |d.order| && 0 <= i < |d.hosts| && d.hosts[i].role == d.order[a] ::
      d.order[b] != d.order[a]
  }

  lemma {:induction false} RankUnique(order: seq<string>, role: string, k: nat)
    requires k < |order| && order[k] == role
    requires forall b | 0 <= b < |order| && order[b] == role :: b == k
    ensures Rank(order, role) == k
  {
    var r := Rank(order, role);
    assert order[r] == role;
  }

  ghost predicate Before(d: Definition, p: nat, q: nat)
    requires p < |d.hosts| && q < |d.hosts|
  {
    var a, b := Rank(d.order, d.hosts[p].role), Rank(d.order, d.hosts[q].role);
    a < b || (a == b && p < q)
  }

  /** Positions of hosts of rank below k, strictly ordered by (rank, position). */
  ghost predicate Sorted(d: Definition, v: seq<nat>, k: nat) {
    && (forall a | 0 <= a < |v| :: v[a] < |d.hosts| && Rank(d.order, d.hosts[v[a]].role) < k)
    && (forall a, b | 0 <= a < b < |v| :: Before(d, v[a], v[b]))
  }

  ghost predicate OneRank(d: Definition, v: seq<nat>, k: nat) {
    && (forall a | 0 <= a < |v| :: v[a] < |d.hosts| && Rank(d.order, d.hosts[v[a]].role) == k)
    && (forall a, b | 0 <= a < b < |v| :: v[a] < v[b])
  }

  lemma SortedConcat(d: Definition, v: seq<nat>, group: seq<nat>, k: nat)
    requires Sorted(d, v, k) && OneRank(d, group, k)
    ensures Sorted(d, v + group, k + 1)
  {
  }

  lemma {:induction false} ListedSorted(d: Definition, k: nat)
    requires k <= |d.order| && NoPopulatedRepeat(d)
    ensures Sorted(d, Listed(d, k), k)
  {
    if k > 0 {
      ListedSorted(d, k - 1);
      var role := d.order[k - 1];
      var group := HostsByRole(d, role);
      forall a | 0 <= a < |group|
        ensures Rank(d.order, d.hosts[group[a]].role) == k - 1
      {
        var i := group[a];
        assert d.hosts[i].role == role;
        RankUnique(d.order, role, k - 1);
      }
      SortedConcat(d, Listed(d, k - 1), group, k - 1);
    }
  }

  /** The visits are strictly ordered by (position of the role in the order, position of the host), with
      unlisted roles last: stable within a role, and no host is visited twice. */
  lemma VisitsAreOrdered(d: Definition)
    requires NoPopulatedRepeat(d)
    ensures Sorted(d, Visits(d), |d.order| + 1)
  {
    ListedSorted(d, |d.order|);
    SortedConcat(d, Listed(d, |d.order|), Unlisted(d), |d.order|);
  }

  lemma {:induction false} RoleIsListed(d: Definition, k: nat, p: nat)
    requires k <= |d.order| && p < |d.hosts| && d.hosts[p].role in d.order[..k]
    ensures p in Listed(d, k)
  {
    if d.hosts[p].role == d.order[k - 1] {
      WhereComplete(d.hosts, (h: Host) => h.role == d.order[k - 1], |d.hosts|, p);
      assert p in HostsByRole(d, d.order[k - 1]);
    } else {
      assert d.order[..k] == d.order[..k - 1] + [d.order[k - 1]];
      RoleIsListed(d, k - 1, p);
    }
  }

  /** tags[a] is the entry of the order for which host v[a] is visited. */
  ghost predicate TagsFit(d: Definition, v: seq<nat>, tags: seq<nat>, k: nat)
    requires k <= |d.order|
  {
    |tags| == |v| && forall a | 0 <= a < |v| :: v[a] < |d.hosts| && tags[a] < k && d.hosts[v[a]].role == d.order[tags[a]]
  }

  ghost predicate TagsAscend(v: seq<nat>, tags: seq<nat>)
    requires |v| == |tags|
  {
    forall a, b | 0 <= a < b < |v| :: tags[a] < tags[b] || (tags[a] == tags[b] && v[a] < v[b])
  }

  ghost predicate HasTag(v: seq<nat>, tags: seq<nat>, p: nat, g: nat)
    requires |v| == |tags|
  {
    exists a :: 0 <= a < |v| && v[a] == p && tags[a] == g
  }

  function Copies(g: nat, n: nat): (tags: seq<nat>)
    ensures |tags| == n && forall a | 0 <= a < n :: tags[a] == g
  {
    seq(n, _ => g)
  }

  lemma AscendConcat(v: seq<nat>, tags: seq<nat>, group: seq<nat>, g: nat)
    requires |v| == |tags| && TagsAscend(v, tags) && forall a | 0 <= a < |tags| :: tags[a] < g
    requires forall a, b | 0 <= a < b < |group| :: group[a] < group[b]
    ensures TagsAscend(v + group, tags + Copies(g, |group|))
  {
  }

  lemma HasTagConcat(v: seq<nat>, tags: seq<nat>, w: seq<nat>, more: seq<nat>, p: nat, g: nat)
    requires |v| == |tags| && |w| == |more| && (HasTag(v, tags, p, g) || HasTag(w, more, p, g))
    ensures HasTag(v + w, tags + more, p, g)
  {
    if HasTag(v, tags, p, g) {
      var a :| 0 <= a < |v| && v[a] == p && tags[a] == g;
      assert (v + w)[a] == p && (tags + more)[a] == g;
    } else {
      var a :| 0 <= a < |w| && w[a] == p && more[a] == g;
      assert (v + w)[|v| + a] == p && (tags + more)[|v| + a] == g;
    }
  }

  lemma GroupHasTag(d: Definition, p: nat, g: nat)
    requires p < |d.hosts| && g < |d.order| && d.hosts[p].role == d.order[g]
    ensures var group := HostsByRole(d, d.order[g]); HasTag(group, Copies(g, |group|), p, g)
  {
    var group := HostsByRole(d, d.order[g]);
    WhereComplete(d.hosts, (h: Host) => h.role == d.order[g], |d.hosts|, p);
    assert p in group;
    var a :| 0 <= a < |group| && group[a] == p;
    assert Copies(g, |group|)[a] == g;
  }

  lemma {:induction false} ListedByGroup(d: Definition, k: nat) returns (tags: seq<nat>)
    requires k <= |d.order|
    ensures TagsFit(d, Listed(d, k), tags, k) && TagsAscend(Listed(d, k), tags)
    ensures forall g: nat, p: nat | g < k && p < |d.hosts| && d.hosts[p].role == d.order[g] :: HasTag(Listed(d, k), tags, p, g)
  {
    if k == 0 {
      tags := [];
    } else {
      var before, group := Listed(d, k - 1), HostsByRole(d, d.order[k - 1]);
      var earlier := ListedByGroup(d, k - 1);
      var more := Copies(k - 1, |group|);
      tags := earlier + more;
      AscendConcat(before, earlier, group, k - 1);
      forall g: nat, p: nat | g < k && p < |d.hosts| && d.hosts[p].role == d.order[g]
        ensures HasTag(Listed(d, k), tags, p, g)
      {
        if g == k - 1 {
          GroupHasTag(d, p, g);
        }
        HasTagConcat(before, earlier, group, more, p, g);
      }
    }
  }

  /** Also when roles are repeated: the visits are, for each entry of the order in turn, all hosts with that
      role by position, and then those whose role is not listed. */
  lemma VisitsByGroup(d: Definition) returns (tags: seq<nat>)
    ensures |tags| == |Visits(d)|
    ensures forall a | 0 <= a < |tags| ::
              if tags[a] < |d.order| then d.hosts[Visits(d)[a]].role == d.order[tags[a]]
              else tags[a] == |d.order| && d.hosts[Visits(d)[a]].role !in d.order
    ensures forall a, b | 0 <= a < b < |tags| ::
              tags[a] < tags[b] || (tags[a] == tags[b] && Visits(d)[a] < Visits(d)[b])
    ensures forall g: nat, p: nat | g < |d.order| && p < |d.hosts| && d.hosts[p].role == d.order[g] ::
              HasTag(Visits(d), tags, p, g)
    ensures forall p: nat | p < |d.hosts| && d.hosts[p].role !in d.order :: p in Visits(d)
  {
    var listed, unlisted := Listed(d, |d.order|), Unlisted(d);
    var earlier := ListedByGroup(d, |d.order|);
    var more := Copies(|d.order|, |unlisted|);
    tags := earlier + more;
    AscendConcat(listed, earlier, unlisted, |d.order|);
    assert TagsAscend(Visits(d), tags);
    forall g: nat, p: nat | g < |d.order| && p < |d.hosts| && d.hosts[p].role == d.order[g]
      ensures HasTag(Visits(d), tags, p, g)
    {
      HasTagConcat(listed, earlier, unlisted, more, p, g);
    }
    forall p: nat | p < |d.hosts| && d.hosts[p].role !in d.order
      ensures p in Visits(d)
    {
      EveryHostIsVisited(d, p);
    }
  }

  /** Every host is visited, whatever the order lists. */
  lemma EveryHostIsVisited(d: Definition, p: nat)
    requires p < |d.hosts|
    ensures p in Visits(d)
  {
    if d.hosts[p].role in d.order {
      assert d.order[..|d.order|] == d.order;
      RoleIsListed(d, |d.order|, p);
    } else {
      WhereComplete(d.hosts, (h: Host) => h.role !in d.order, |d.hosts|, p);
    }
  }

  ghost predicate NoDuplicates<T>(s: seq<T>) {
    forall a, b | 0 <= a < b < |s| :: s[a] != s[b]
  }

  ghost function Elements<T>(s: seq<T>): set<T> {
    set x | x in s
  }

  lemma {:induction false} DistinctLength<T>(s: seq<T>)
    ensures NoDuplicates(s) <==> |Elements(s)| == |s|
    ensures |Elements(s)| <= |s|
  {
    if s != [] {
      var rest, all := Elements(s[1..]), Elements(s);
      DistinctLength(s[1..]);
      assert all == rest + {s[0]};
      if s[0] in s[1..] {
        var b :| 0 <= b < |s[1..]| && s[1..][b] == s[0];
        assert s[0] == s[b + 1];
        assert all == rest;
      } else {
        assert NoDuplicates(s[1..]) ==> NoDuplicates(s) by {
          forall a, b | NoDuplicates(s[1..]) && 0 <= a < b < |s|
            ensures s[a] != s[b]
          {
            assert s[b] == s[1..][b - 1];
            assert a > 0 ==> s[a] == s[1..][a - 1];
          }
        }
        if !NoDuplicates(s[1..]) {
          var a, b :| 0 <= a < b < |s[1..]| && s[1..][a] == s[1..][b];
          assert s[a + 1] == s[b + 1];
        }
      }
    }
  }

  ghost function Below(n: nat): set<nat> {
    if n == 0 then {} else Below(n - 1) + {n - 1}
  }

  lemma {:induction false} BelowIsInterval(n: nat)
    ensures |Below(n)| == n
    ensures forall p: nat :: p in Below(n) <==> p < n
  {
    if n > 0 {
      BelowIsInterval(n - 1);
    }
  }

  lemma VisitsCover(d: Definition)
    ensures |Elements(Visits(d))| == |d.hosts|
  {
    var v := Visits(d);
    BelowIsInterval(|d.hosts|);
    forall p: nat | p in Below(|d.hosts|)
      ensures p in v
    {
      EveryHostIsVisited(d, p);
    }
    assert Elements(v) == Below(|d.hosts|);
  }

  /** A host is visited twice exactly when a role that some host has is repeated in the order; otherwise
      the visits are a permutation of the hosts. */
  lemma VisitedOnceIff(d: Definition)
    ensures NoDuplicates(Visits(d)) <==> NoPopulatedRepeat(d)
    ensures NoDuplicates(Visits(d)) <==> |Visits(d)| == |d.hosts|
  {
    VisitsCover(d);
    DistinctLength(Visits(d));
    if NoPopulatedRepeat(d) {
      OrderedIsDistinct(d);
    } else {
      var a, b, i :| 0 <= a < b < |d.order| && 0 <= i < |d.hosts| && d.hosts[i].role == d.order[a] && d.order[b] == d.order[a];
      RepeatVisitsTwice(d, a, b, i);
    }
  }

  lemma OrderedIsDistinct(d: Definition)
    requires NoPopulatedRepeat(d)
    ensures NoDuplicates(Visits(d))
  {
    VisitsAreOrdered(d);
    var v := Visits(d);
    forall a, b | 0 <= a < b < |v|
      ensures v[a] != v[b]
    {
      assert Before(d, v[a], v[b]);
    }
  }

  lemma RepeatVisitsTwice(d: Definition, a: nat, b: nat, i: nat)
    requires a < b < |d.order| && i < |d.hosts| && d.hosts[i].role == d.order[a] == d.order[b]
    ensures !NoDuplicates(Visits(d))
  {
    var earlier, group := Listed(d, b), HostsByRole(d, d.order[b]);
    RoleIsListed(d, b, i);
    WhereComplete(d.hosts, (h: Host) => h.role == d.order[b], |d.hosts|, i);
    assert i in earlier && i in group;
    ListedPrefix(d, b + 1, |d.order|);
    assert Listed(d, b + 1) == earlier + group;
    assert earlier + group <= Visits(d);
    TwiceInPrefix(earlier, group, Visits(d), i);
  }

  lemma TwiceInPrefix<T>(s: seq<T>, t: seq<T>, all: seq<T>, x: T)
    requires s + t <= all && x in s && x in t
    ensures !NoDuplicates(all)
  {
    var a :| 0 <= a < |s| && s[a] == x;
    var b :| 0 <= b < |t| && t[b] == x;
    assert all[a] == (s + t)[a] == x && all[|s| + b] == (s + t)[|s| + b] == x;
  }

  lemma {:induction false} ListedPrefix(d: Definition, k: nat, n: nat)
    requires k <= n <= |d.order|
    ensures Listed(d, k) <= Listed(d, n)
    decreases n
  {
    if k < n {
      ListedPrefix(d, k, n - 1);
    }
  }
}
