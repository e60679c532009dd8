/** Host rule selection (tftpos/matcher.py): two stable sorts that amount to one lexicographic minimum. */
module Matcher {
  import opened Common

  /** An empty text stands for an absent criterion, as both are false in the source. `id` stands for the
      fields that take no part in matching. */
  datatype Rule = Rule(
    id: string, priority: int, mac: string, macPrefix: string, hostnamePattern: string,
    subnet: string, serial: string, group: string, arch: string)

  datatype Query = Query(mac: string, hostname: string, subnet: string, serial: string, groups: seq<string>, arch: string)

  /** Glob and subnet tests, supplied by libraries. */
  datatype Tests = Tests(glob: (string, string) -> bool, inSubnet: (string, string) -> bool)

  function Normalize(mac: string): string {
    if mac == "" then ""
    else Normalize(mac[..|mac| - 1]) + [if mac[|mac| - 1] == '-' then ':' else LowerChar(mac[|mac| - 1])]
  }

  /** Letter case is dropped and hyphens become colons. */
  lemma {:induction false} NormalizedAt(mac: string, i: nat)
    requires i < |mac|
    ensures |Normalize(mac)| == |mac|
    ensures Normalize(mac)[i] == if mac[i] == '-' then ':' else if 'A' <= mac[i] <= 'Z' then mac[i] - 'A' + 'a' else mac[i]
  {
    if |mac| > 1 {
      NormalizedAt(mac[..|mac| - 1], if i < |mac| - 1 then i else 0);
    }
  }

  /** The first criterion that both the rule and the query have decides. */
  function Tier(tests: Tests, rule: Rule, q: Query): Option<nat> {
    if rule.mac != "" && q.mac != "" then
      if Normalize(rule.mac) == Normalize(q.mac) then Some(0) else None
    else if rule.macPrefix != "" && q.mac != "" then
      if Normalize(rule.macPrefix) <= Normalize(q.mac) then Some(1) else None
    else if rule.hostnamePattern != "" && q.hostname != "" then
      if tests.glob(Lower(q.hostname), Lower(rule.hostnamePattern)) then Some(2) else None
    else if rule.subnet != "" && q.subnet != "" then
      if tests.inSubnet(q.subnet, rule.subnet) then Some(3) else None
    else if rule.serial != "" && q.serial != "" then
      if rule.serial == q.serial then Some(4) else None
    else if rule.group != "" && q.groups != [] then
      if rule.group in q.groups then Some(5) else None
    else if rule.arch != "" && q.arch != "" then
      if Lower(rule.arch) == Lower(q.arch) then Some(6) else None
    else if rule.mac == "" && rule.macPrefix == "" && rule.hostnamePattern == "" && rule.subnet == ""
            && rule.serial == "" && rule.group == "" && rule.arch == "" then Some(7)
    else None
  }

  /** Which rules match, and how well. A criterion that rule and query share decides alone, whether it holds or
      not; a rule shared with on none matches only if it has none. */
  lemma TierIs(tests: Tests, r: Rule, q: Query)
    ensures var byMac, byPrefix := r.mac != "" && q.mac != "", r.macPrefix != "" && q.mac != "";
            var byHostname, bySubnet := r.hostnamePattern != "" && q.hostname != "", r.subnet != "" && q.subnet != "";
            var bySerial, byGroup, byArch := r.serial != "" && q.serial != "", r.group != "" && q.groups != [], r.arch != "" && q.arch != "";
            && (byMac ==> Tier(tests, r, q) == if Normalize(r.mac) == Normalize(q.mac) then Some(0) else None)
            && (!byMac && byPrefix ==>
                  Tier(tests, r, q) == if Normalize(r.macPrefix) <= Normalize(q.mac) then Some(1) else None)
            && (!byMac && !byPrefix && byHostname ==>
                  Tier(tests, r, q) == if tests.glob(Lower(q.hostname), Lower(r.hostnamePattern)) then Some(2) else None)
            && (!byMac && !byPrefix && !byHostname && bySubnet ==>
                  Tier(tests, r, q) == if tests.inSubnet(q.subnet, r.subnet) then Some(3) else None)
            && (!byMac && !byPrefix && !byHostname && !bySubnet && bySerial ==>
                  Tier(tests, r, q) == if r.serial == q.serial then Some(4) else None)
            && (!byMac && !byPrefix && !byHostname && !bySubnet && !bySerial && byGroup ==>
                  Tier(tests, r, q) == if r.group in q.groups then Some(5) else None)
            && (!byMac && !byPrefix && !byHostname && !bySubnet && !bySerial && !byGroup && byArch ==>
                  Tier(tests, r, q) == if Lower(r.arch) == Lower(q.arch) then Some(6) else None)
            && (!byMac && !byPrefix && !byHostname && !bySubnet && !bySerial && !byGroup && !byArch ==>
                  Tier(tests, r, q)
                  == if r.mac + r.macPrefix + r.hostnamePattern + r.subnet + r.serial + r.group + r.arch == "" then Some(7) else None)
  {
  }

  // ---------- Stable sorting ----------

  datatype Key = Key(major: int, minor: int)

  predicate Leq(a: Key, b: Key) {
    a.major < b.major || (a.major == b.major && a.minor <= b.minor)
  }

  /** Puts x before the elements whose key is not smaller. */
  function Insert<T>(key: T -> Key, x: T, s: seq<T>): seq<T> {
    if s == [] || Leq(key(x), key(s[0])) then [x] + s else [s[0]] + Insert(key, x, s[1..])
  }

  /** Python's `sorted`: any stable sort gives this result. */
  function StableSort<T>(key: T -> Key, s: seq<T>): seq<T> {
    if s == [] then [] else Insert(key, s[0], StableSort(key, s[1..]))
  }

  ghost predicate SortedBy<T>(key: T -> Key, s: seq<T>) {
    forall i, j | 0 <= i < j < |s| :: Leq(key(s[i]), key(s[j]))
  }

  ghost predicate SelectsOneKey<T(!new)>(key: T -> Key, p: T -> bool, k: Key) {
    forall x: T :: p(x) ==> key(x) == k
  }

  lemma {:induction false} InsertPermutes<T>(key: T -> Key, x: T, s: seq<T>)
    ensures multiset(Insert(key, x, s)) == multiset([x] + s)
  {
    if s != [] && !Leq(key(x), key(s[0])) {
      InsertPermutes(key, x, s[1..]);
      assert s == [s[0]] + s[1..];
    }
  }

  lemma {:induction false} InsertSorts<T>(key: T -> Key, x: T, s: seq<T>)
    requires SortedBy(key, s)
    ensures SortedBy(key, Insert(key, x, s))
  {
    if s != [] && !Leq(key(x), key(s[0])) {
      InsertSorts(key, x, s[1..]);
      var rest := Insert(key, x, s[1..]);
      InsertPermutes(key, x, s[1..]);
      forall i | 0 <= i < |rest|
        ensures Leq(key(s[0]), key(rest[i]))
      {
        assert rest[i] in multiset([x] + s[1..]);
        assert rest[i] == x || rest[i] in s[1..];
      }
    }
  }

  lemma {:induction false} InsertIsStable<T(!new)>(key: T -> Key, x: T, s: seq<T>, p: T -> bool, k: Key)
    requires SortedBy(key, s) && SelectsOneKey(key, p, k)
    ensures Filter(p, Insert(key, x, s)) == Filter(p, [x] + s)
  {
    assert ([x] + s)[1..] == s;
    if s != [] && !Leq(key(x), key(s[0])) {
      InsertIsStable(key, x, s[1..], p, k);
      assert ([x] + s[1..])[1..] == s[1..];
      assert ([s[0]] + Insert(key, x, s[1..]))[1..] == Insert(key, x, s[1..]);
      assert !(p(x) && p(s[0]));
    }
  }

  /** The sort is sorted, a permutation, and keeps the order of the elements of any one key. */
  lemma {:induction false} StableSortProperties<T(!new)>(key: T -> Key, s: seq<T>)
    ensures SortedBy(key, StableSort(key, s))
    ensures multiset(StableSort(key, s)) == multiset(s)
  {
    if s != [] {
      StableSortProperties(key, s[1..]);
      InsertSorts(key, s[0], StableSort(key, s[1..]));
      InsertPermutes(key, s[0], StableSort(key, s[1..]));
      assert s == [s[0]] + s[1..];
    }
  }

  lemma {:induction false} StableSortIsStable<T(!new)>(key: T -> Key, s: seq<T>, p: T -> bool, k: Key)
    requires SelectsOneKey(key, p, k)
    ensures Filter(p, StableSort(key, s)) == Filter(p, s)
  {
    if s != [] {
      StableSortProperties(key, s[1..]);
      StableSortIsStable(key, s[1..], p, k);
      InsertIsStable(key, s[0], StableSort(key, s[1..]), p, k);
      assert ([s[0]] + StableSort(key, s[1..]))[1..] == StableSort(key, s[1..]);
    }
  }

  lemma {:induction false} FirstOfFilter<T>(p: T -> bool, s: seq<T>, i: nat)
    requires i < |s| && p(s[i]) && forall j | 0 <= j < i :: !p(s[j])
    ensures Filter(p, s) != [] && Filter(p, s)[0] == s[i]
  {
    if i > 0 {
      FirstOfFilter(p, s[1..], i - 1);
    }
  }

  // ---------- The matcher ----------

  datatype Candidate = Candidate(tier: nat, priority: int, rule: Rule)

  function RulePriority(r: Rule): Key {
    Key(r.priority, 0)
  }

  function CandidateKey(c: Candidate): Key {
    Key(c.tier, c.priority)
  }

  function Candidates(tests: Tests, rules: seq<Rule>, q: Query): seq<Candidate> {
    if rules == [] then []
    else
      var last := rules[|rules| - 1];
      Candidates(tests, rules[..|rules| - 1], q)
      + (match Tier(tests, last, q) case Some(t) => [Candidate(t, last.priority, last)] case None => [])
  }

  function Selected(tests: Tests, sorted: seq<Rule>, q: Query): Option<Rule> {
    var candidates := StableSort(CandidateKey, Candidates(tests, sorted, q));
    if candidates == [] then None else Some(candidates[0].rule)
  }

  class HostMatcher {
    const tests: Tests
    const rules: seq<Rule>

    constructor (tests: Tests, rules: seq<Rule>)
      ensures this.tests == tests && this.rules == StableSort(RulePriority, rules)
    {
      this.tests, this.rules := tests, StableSort(RulePriority, rules);
    }

    /** `given` is the list the matcher was built from. */
    method Match(q: Query, ghost given: seq<Rule>) returns (r: Option<Rule>)
      requires rules == StableSort(RulePriority, given)
      ensures var best := Best(tests, given, q, |given|);
              r == if best.None? then None else Some(given[best.value])
      ensures r == Answer(tests, given, q)
    {
      var candidates := [];
      for i := 0 to |rules|
        invariant candidates == Candidates(tests, rules[..i], q)
      {
        assert rules[..i + 1][..i] == rules[..i];
        var tier := Tier(tests, rules[i], q);
        if tier.Some? {
          candidates := candidates + [Candidate(tier.value, rules[i].priority, rules[i])];
        }
      }
      assert rules[..|rules|] == rules;
      TwoSortsAreOneMinimum(tests, given, q);
      if candidates == [] {
        StableSortProperties(CandidateKey, candidates);
        return None;
      }
      candidates := StableSort(CandidateKey, candidates);
      StableSortProperties(CandidateKey, Candidates(tests, rules, q));
      return Some(candidates[0].rule);
    }
  }

  // ---------- The single-pass minimum ----------

  /** The key of a rule that matches. */
  function MatchKey(tests: Tests, rule: Rule, q: Query): Option<Key> {
    match Tier(tests, rule, q) case Some(t) => Some(Key(t, rule.priority)) case None => None
  }

  /** Among the first n rules, the earliest with the least key. */
  function Best(tests: Tests, rules: seq<Rule>, q: Query, n: nat): (best: Option<nat>)
    requires n <= |rules|
    ensures best.Some? ==> best.value < n && MatchKey(tests, rules[best.value], q).Some?
  {
    if n == 0 then None
    else
      var before, key := Best(tests, rules, q, n - 1), MatchKey(tests, rules[n - 1], q);
      if key.None? then before
      else if before.None? || !Leq(MatchKey(tests, rules[before.value], q).value, key.value) then Some(n - 1)
      else before
  }

  /** Rule i precedes rule j by (tier, priority, position). */
  ghost predicate Precedes(tests: Tests, rules: seq<Rule>, q: Query, i: nat, j: nat)
    requires i < |rules| && j < |rules|
  {
    var a, b := MatchKey(tests, rules[i], q), MatchKey(tests, rules[j], q);
    a.Some? && b.Some? && Leq(a.value, b.value) && (a == b ==> i < j)
  }

  /** It is None exactly when no rule matches; otherwise it precedes every other matching rule. */
  lemma {:induction false} BestIsLeast(tests: Tests, rules: seq<Rule>, q: Query, n: nat)
    requires n <= |rules|
    ensures Best(tests, rules, q, n).None? <==> forall j: nat | j < n :: MatchKey(tests, rules[j], q).None?
    ensures Best(tests, rules, q, n).Some? ==>
              forall j: nat | j < n && MatchKey(tests, rules[j], q).Some? && j != Best(tests, rules, q, n).value ::
                Precedes(tests, rules, q, Best(tests, rules, q, n).value, j)
  {
    if n > 0 {
      BestIsLeast(tests, rules, q, n - 1);
      var before, best := Best(tests, rules, q, n - 1), Best(tests, rules, q, n);
      if best.Some? {
        forall j: nat | j < n && MatchKey(tests, rules[j], q).Some? && j != best.value
          ensures Precedes(tests, rules, q, best.value, j)
        {
          assert j < n - 1 && j != before.value ==> Precedes(tests, rules, q, before.value, j);
        }
      }
    }
  }

  function HasKey(k: Key): Candidate -> bool {
    c => CandidateKey(c) == k
  }

  function MatchesWithKey(tests: Tests, q: Query, k: Key): Rule -> bool {
    r => MatchKey(tests, r, q) == Some(k)
  }

  function Rules(cs: seq<Candidate>): seq<Rule> {
    if cs == [] then [] else [cs[0].rule] + Rules(cs[1..])
  }

  lemma {:induction false} RulesConcat(a: seq<Candidate>, b: seq<Candidate>)
    ensures Rules(a + b) == Rules(a) + Rules(b)
  {
    if a == [] {
      assert a + b == b;
    } else {
      assert (a + b)[1..] == a[1..] + b;
      RulesConcat(a[1..], b);
    }
  }

  /** The candidates with one key are the rules that match with it, in the same order. */
  lemma {:induction false} CandidatesWithKey(tests: Tests, rules: seq<Rule>, q: Query, k: Key)
    ensures Rules(Filter(HasKey(k), Candidates(tests, rules, q))) == Filter(MatchesWithKey(tests, q, k), rules)
  {
    if rules != [] {
      var init, last := rules[..|rules| - 1], rules[|rules| - 1];
      var tier := Tier(tests, last, q);
      var added := match tier case Some(t) => [Candidate(t, last.priority, last)] case None => [];
      CandidatesWithKey(tests, init, q, k);
      FilterConcat(HasKey(k), Candidates(tests, init, q), added);
      FilterConcat(MatchesWithKey(tests, q, k), init, [last]);
      assert rules == init + [last];
      RulesConcat(Filter(HasKey(k), Candidates(tests, init, q)), Filter(HasKey(k), added));
      SingleCandidate(tests, last, q, k);
    }
  }

  lemma SingleCandidate(tests: Tests, rule: Rule, q: Query, k: Key)
    ensures var added := match Tier(tests, rule, q) case Some(t) => [Candidate(t, rule.priority, rule)] case None => [];
            Rules(Filter(HasKey(k), added)) == Filter(MatchesWithKey(tests, q, k), [rule])
  {
    assert [rule][1..] == [];
    if Tier(tests, rule, q).Some? {
      var c := Candidate(Tier(tests, rule, q).value, rule.priority, rule);
      assert [c][1..] == [];
      assert HasKey(k)(c) <==> MatchesWithKey(tests, q, k)(rule);
      assert Filter(HasKey(k), [c]) == if HasKey(k)(c) then [c] else [];
    }
  }

  lemma {:induction false} CandidateMembers(tests: Tests, rules: seq<Rule>, q: Query, c: Candidate)
    ensures c in Candidates(tests, rules, q) <==> c.rule in rules && MatchKey(tests, c.rule, q) == Some(CandidateKey(c))
  {
    if rules != [] {
      CandidateMembers(tests, rules[..|rules| - 1], q, c);
      assert rules == rules[..|rules| - 1] + [rules[|rules| - 1]];
    }
  }

  lemma SortMembers(rules: seq<Rule>, r: Rule)
    ensures r in StableSort(RulePriority, rules) <==> r in rules
  {
    StableSortProperties(RulePriority, rules);
    assert r in multiset(StableSort(RulePriority, rules)) <==> r in multiset(rules);
  }

  /** The sorted candidates are those of the given rules that match. */
  lemma SortedCandidateMembers(tests: Tests, given: seq<Rule>, q: Query, c: Candidate)
    ensures c in StableSort(CandidateKey, Candidates(tests, StableSort(RulePriority, given), q))
            <==> c.rule in given && MatchKey(tests, c.rule, q) == Some(CandidateKey(c))
  {
    var sorted := StableSort(RulePriority, given);
    var candidates := Candidates(tests, sorted, q);
    StableSortProperties(CandidateKey, candidates);
    assert c in multiset(StableSort(CandidateKey, candidates)) <==> c in multiset(candidates);
    CandidateMembers(tests, sorted, q, c);
    SortMembers(given, c.rule);
  }

  /** The candidate that a matching rule becomes. */
  function CandidateFor(tests: Tests, r: Rule, q: Query): Candidate
    requires MatchKey(tests, r, q).Some?
  {
    Candidate(Tier(tests, r, q).value, r.priority, r)
  }

  /** Some rule matches exactly when there is a candidate, and the first sorted candidate has the least
      key of all rules that match. */
  lemma FirstCandidateHasLeastKey(tests: Tests, given: seq<Rule>, q: Query, cs: seq<Candidate>)
    requires cs == StableSort(CandidateKey, Candidates(tests, StableSort(RulePriority, given), q))
    ensures var best := Best(tests, given, q, |given|);
            && (cs == [] <==> best.None?)
            && (best.Some? ==> MatchKey(tests, given[best.value], q) == Some(CandidateKey(cs[0])))
  {
    var best := Best(tests, given, q, |given|);
    BestIsLeast(tests, given, q, |given|);
    if best.Some? {
      var c := CandidateFor(tests, given[best.value], q);
      SortedCandidateMembers(tests, given, q, c);
      FirstIsLeast(tests, given, q, cs, c);
      SortedCandidateMembers(tests, given, q, cs[0]);
      var j: nat :| j < |given| && given[j] == cs[0].rule;
      assert j == best.value || Precedes(tests, given, q, best.value, j);
    } else if cs != [] {
      SortedCandidateMembers(tests, given, q, cs[0]);
    }
  }

  lemma FirstIsLeast(tests: Tests, given: seq<Rule>, q: Query, cs: seq<Candidate>, c: Candidate)
    requires cs == StableSort(CandidateKey, Candidates(tests, StableSort(RulePriority, given), q)) && c in cs
    ensures Leq(CandidateKey(cs[0]), CandidateKey(c))
  {
    StableSortProperties(CandidateKey, Candidates(tests, StableSort(RulePriority, given), q));
    var i :| 0 <= i < |cs| && cs[i] == c;
    assert i == 0 || Leq(CandidateKey(cs[0]), CandidateKey(cs[i]));
  }

  /** Sorting the rules by priority and the candidates by (tier, priority), both stably, selects the
      earliest rule with the least key. */
  lemma TwoSortsAreOneMinimum(tests: Tests, given: seq<Rule>, q: Query)
    ensures var best := Best(tests, given, q, |given|);
            Selected(tests, StableSort(RulePriority, given), q) == if best.None? then None else Some(given[best.value])
  {
    var sorted, best := StableSort(RulePriority, given), Best(tests, given, q, |given|);
    var candidates := Candidates(tests, sorted, q);
    var cs := StableSort(CandidateKey, candidates);
    FirstCandidateHasLeastKey(tests, given, q, cs);
    if best.Some? {
      var k := CandidateKey(cs[0]);
      var p := MatchesWithKey(tests, q, k);
      FirstOfFilter(HasKey(k), cs, 0);
      assert SelectsOneKey(CandidateKey, HasKey(k), k);
      StableSortIsStable(CandidateKey, candidates, HasKey(k), k);
      CandidatesWithKey(tests, sorted, q, k);
      assert SelectsOneKey(RulePriority, p, Key(k.minor, 0));
      StableSortIsStable(RulePriority, given, p, Key(k.minor, 0));
      BestIsLeast(tests, given, q, |given|);
      forall j | 0 <= j < best.value
        ensures !p(given[j])
      {
        assert MatchKey(tests, given[j], q).Some? ==> Precedes(tests, given, q, best.value, j);
      }
      FirstOfFilter(p, given, best.value);
    }
  }

  // ---------- What is answered ----------

  /** The rule that a matcher built from these rules selects. */
  function Answer(tests: Tests, rules: seq<Rule>, q: Query): Option<Rule> {
    var best := Best(tests, rules, q, |rules|);
    if best.None? then None else Some(rules[best.value])
  }

  /** The answer matches, and no other rule that matches has a lower tier, or the same tier and a lower
      priority, or the same of both and an earlier position. There is none exactly if no rule matches. */
  lemma AnswerIsLeast(tests: Tests, given: seq<Rule>, q: Query)
    ensures Answer(tests, given, q).None? <==> forall i | 0 <= i < |given| :: Tier(tests, given[i], q).None?
    ensures Answer(tests, given, q).Some? ==>
              exists i :: && 0 <= i < |given| && given[i] == Answer(tests, given, q).value && Tier(tests, given[i], q).Some?
                          && forall j | 0 <= j < |given| && j != i && Tier(tests, given[j], q).Some? ::
                               var a, b := Tier(tests, given[i], q).value, Tier(tests, given[j], q).value;
                               a < b || (a == b && (given[i].priority < given[j].priority || (given[i].priority == given[j].priority && i < j)))
  {
    BestIsLeast(tests, given, q, |given|);
    var best := Best(tests, given, q, |given|);
    if best.None? {
      forall i | 0 <= i < |given|
        ensures Tier(tests, given[i], q).None?
      {
        assert MatchKey(tests, given[i], q).None?;
      }
    } else {
      var i := best.value;
      forall j | 0 <= j < |given| && j != i && Tier(tests, given[j], q).Some?
        ensures var a, b := Tier(tests, given[i], q).value, Tier(tests, given[j], q).value;
                a < b || (a == b && (given[i].priority < given[j].priority || (given[i].priority == given[j].priority && i < j)))
      {
        assert MatchKey(tests, given[j], q).Some?;
        assert Precedes(tests, given, q, i, j);
      }
    }
  }

  lemma BetterRuleWins(tests: Tests, given: seq<Rule>, q: Query, i: nat)
    requires i < |given| && Tier(tests, given[i], q).Some?
    ensures var answer := Answer(tests, given, q);
            && answer.Some? && Tier(tests, answer.value, q).Some?
            && Tier(tests, answer.value, q).value <= Tier(tests, given[i], q).value
            && (Tier(tests, answer.value, q) == Tier(tests, given[i], q) ==> answer.value.priority <= given[i].priority)
  {
    AnswerIsLeast(tests, given, q);
  }

  /** The ladder, first rung: a rule with exactly the query's MAC wins over every rule without. */
  lemma ExactMacWins(tests: Tests, given: seq<Rule>, q: Query, i: nat)
    requires i < |given| && given[i].mac != "" && q.mac != "" && Normalize(given[i].mac) == Normalize(q.mac)
    ensures var answer := Answer(tests, given, q);
            && answer.Some? && answer.value.mac != "" && Normalize(answer.value.mac) == Normalize(q.mac)
            && answer.value.priority <= given[i].priority
  {
    TierIs(tests, given[i], q);
    BetterRuleWins(tests, given, q, i);
    TierIs(tests, Answer(tests, given, q).value, q);
  }

  /** Next: a MAC prefix. */
  lemma PrefixWins(tests: Tests, given: seq<Rule>, q: Query, i: nat)
    requires i < |given| && q.mac != "" && given[i].mac == "" && given[i].macPrefix != ""
    requires Normalize(given[i].macPrefix) <= Normalize(q.mac)
    ensures Answer(tests, given, q).Some?
    ensures var r := Answer(tests, given, q).value;
            || (r.mac != "" && Normalize(r.mac) == Normalize(q.mac))
            || (r.mac == "" && r.macPrefix != "" && Normalize(r.macPrefix) <= Normalize(q.mac) && r.priority <= given[i].priority)
  {
    TierIs(tests, given[i], q);
    BetterRuleWins(tests, given, q, i);
    TierIs(tests, Answer(tests, given, q).value, q);
  }

  /** Next: a host name pattern. */
  lemma HostnameWins(tests: Tests, given: seq<Rule>, q: Query, i: nat)
    requires i < |given| && (q.mac == "" || (given[i].mac == "" && given[i].macPrefix == ""))
    requires q.hostname != "" && given[i].hostnamePattern != "" && tests.glob(Lower(q.hostname), Lower(given[i].hostnamePattern))
    ensures Answer(tests, given, q).Some?
    ensures var r := Answer(tests, given, q).value;
            || (q.mac != "" && (r.mac != "" || r.macPrefix != ""))
            || (r.hostnamePattern != "" && tests.glob(Lower(q.hostname), Lower(r.hostnamePattern)) && r.priority <= given[i].priority)
  {
    TierIs(tests, given[i], q);
    BetterRuleWins(tests, given, q, i);
    TierIs(tests, Answer(tests, given, q).value, q);
  }

  /** Next: a subnet. */
  lemma SubnetWins(tests: Tests, given: seq<Rule>, q: Query, i: nat)
    requires i < |given| && (q.mac == "" || (given[i].mac == "" && given[i].macPrefix == ""))
    requires q.hostname == "" || given[i].hostnamePattern == ""
    requires q.subnet != "" && given[i].subnet != "" && tests.inSubnet(q.subnet, given[i].subnet)
    ensures Answer(tests, given, q).Some?
    ensures var r := Answer(tests, given, q).value;
            || (q.mac != "" && (r.mac != "" || r.macPrefix != "")) || (q.hostname != "" && r.hostnamePattern != "")
            || (r.subnet != "" && tests.inSubnet(q.subnet, r.subnet) && r.priority <= given[i].priority)
  {
    TierIs(tests, given[i], q);
    BetterRuleWins(tests, given, q, i);
    TierIs(tests, Answer(tests, given, q).value, q);
  }

  /** The rule and the query share none of the first four criteria. */
  predicate SharesNoAddress(r: Rule, q: Query) {
    && (q.mac == "" || (r.mac == "" && r.macPrefix == ""))
    && (q.hostname == "" || r.hostnamePattern == "") && (q.subnet == "" || r.subnet == "")
  }

  /** Next: a serial number. */
  lemma SerialWins(tests: Tests, given: seq<Rule>, q: Query, i: nat)
    requires i < |given| && SharesNoAddress(given[i], q) && q.serial != "" && given[i].serial == q.serial
    ensures Answer(tests, given, q).Some?
    ensures var r := Answer(tests, given, q).value;
            !SharesNoAddress(r, q) || (r.serial == q.serial && r.priority <= given[i].priority)
  {
    TierIs(tests, given[i], q);
    BetterRuleWins(tests, given, q, i);
    TierIs(tests, Answer(tests, given, q).value, q);
  }

  /** Next: a group. */
  lemma GroupWins(tests: Tests, given: seq<Rule>, q: Query, i: nat)
    requires i < |given| && SharesNoAddress(given[i], q) && (q.serial == "" || given[i].serial == "")
    requires given[i].group != "" && given[i].group in q.groups
    ensures Answer(tests, given, q).Some?
    ensures var r := Answer(tests, given, q).value;
            || !SharesNoAddress(r, q) || (q.serial != "" && r.serial != "")
            || (r.group != "" && r.group in q.groups && r.priority <= given[i].priority)
  {
    TierIs(tests, given[i], q);
    BetterRuleWins(tests, given, q, i);
    TierIs(tests, Answer(tests, given, q).value, q);
  }

  /** Next: an architecture. */
  lemma ArchWins(tests: Tests, given: seq<Rule>, q: Query, i: nat)
    requires i < |given| && SharesNoAddress(given[i], q) && (q.serial == "" || given[i].serial == "")
    requires q.groups == [] || given[i].group == ""
    requires given[i].arch != "" && q.arch != "" && Lower(given[i].arch) == Lower(q.arch)
    ensures Answer(tests, given, q).Some?
    ensures var r := Answer(tests, given, q).value;
            || !SharesNoAddress(r, q) || (q.serial != "" && r.serial != "") || (q.groups != [] && r.group != "")
            || (r.arch != "" && Lower(r.arch) == Lower(q.arch) && r.priority <= given[i].priority)
  {
    TierIs(tests, given[i], q);
    BetterRuleWins(tests, given, q, i);
    TierIs(tests, Answer(tests, given, q).value, q);
  }

  predicate NoCriteria(r: Rule) {
    r.mac == "" && r.macPrefix == "" && r.hostnamePattern == "" && r.subnet == "" && r.serial == "" && r.group == "" && r.arch == ""
  }

  /** Last: a rule without criteria matches every query. */
  lemma CatchAllMatches(tests: Tests, given: seq<Rule>, q: Query, i: nat)
    requires i < |given| && NoCriteria(given[i])
    ensures Answer(tests, given, q).Some?
    ensures var r := Answer(tests, given, q).value; NoCriteria(r) ==> r.priority <= given[i].priority
  {
    TierIs(tests, given[i], q);
    BetterRuleWins(tests, given, q, i);
    TierIs(tests, Answer(tests, given, q).value, q);
  }

  /** The first criterion that the answer shares with the query holds, or the answer has no criteria at all. */
  lemma AnswerHolds(tests: Tests, given: seq<Rule>, q: Query)
    requires Answer(tests, given, q).Some?
    ensures var r := Answer(tests, given, q).value;
            && r in given
            && if q.mac != "" && r.mac != "" then Normalize(r.mac) == Normalize(q.mac)
               else if q.mac != "" && r.macPrefix != "" then Normalize(r.macPrefix) <= Normalize(q.mac)
               else if q.hostname != "" && r.hostnamePattern != "" then tests.glob(Lower(q.hostname), Lower(r.hostnamePattern))
               else if q.subnet != "" && r.subnet != "" then tests.inSubnet(q.subnet, r.subnet)
               else if q.serial != "" && r.serial != "" then r.serial == q.serial
               else if q.groups != [] && r.group != "" then r.group in q.groups
               else if q.arch != "" && r.arch != "" then Lower(r.arch) == Lower(q.arch)
               else NoCriteria(r)
  {
    AnswerIsLeast(tests, given, q);
    TierIs(tests, Answer(tests, given, q).value, q);
  }

  // ---------- Adding a rule ----------

  lemma NotBothPrecede(tests: Tests, rules: seq<Rule>, q: Query, i: nat, j: nat)
    requires i < |rules| && j < |rules|
    ensures !(Precedes(tests, rules, q, i, j) && Precedes(tests, rules, q, j, i))
  {
  }

  /** The earliest rule with the least key is unique. */
  lemma LeastIsBest(tests: Tests, rules: seq<Rule>, q: Query, i: nat)
    requires i < |rules| && MatchKey(tests, rules[i], q).Some?
    requires forall j: nat | j < |rules| && MatchKey(tests, rules[j], q).Some? && j != i :: Precedes(tests, rules, q, i, j)
    ensures Best(tests, rules, q, |rules|) == Some(i)
  {
    BestIsLeast(tests, rules, q, |rules|);
    var best := Best(tests, rules, q, |rules|);
    assert best.Some?;
    NotBothPrecede(tests, rules, q, i, best.value);
  }

  /** Where position j of a list with one element inserted at n comes from. */
  function Origin(n: nat, j: nat): nat
    requires j != n
  {
    if j < n then j else j - 1
  }

  ghost predicate InsertedInto(before: seq<Rule>, n: nat, after: seq<Rule>) {
    && n <= |before| && |after| == |before| + 1
    && forall j: nat {:trigger after[j]} | j < |after| && j != n :: after[j] == before[Origin(n, j)]
  }

  /** Where position i of the list without the inserted element is afterwards. */
  function Shifted(n: nat, i: nat): nat {
    if i < n then i else i + 1
  }

  /** The rule at n does not matter beside the rule that was best: it does not match, or is behind it by
      (tier, priority, position). */
  ghost predicate Behind(tests: Tests, before: seq<Rule>, after: seq<Rule>, n: nat, q: Query, best: nat)
    requires n < |after| && best < |before|
  {
    var k, kBest := MatchKey(tests, after[n], q), MatchKey(tests, before[best], q);
    k.None? || (kBest.Some? && Leq(kBest.value, k.value) && (k == kBest ==> best < n))
  }

  lemma PrecedesAfterInsertion(tests: Tests, before: seq<Rule>, after: seq<Rule>, n: nat, q: Query, i: nat, j: nat)
    requires InsertedInto(before, n, after) && i < |before| && j < |before|
    ensures Precedes(tests, after, q, Shifted(n, i), Shifted(n, j)) <==> Precedes(tests, before, q, i, j)
  {
    assert Origin(n, Shifted(n, i)) == i && Origin(n, Shifted(n, j)) == j;
  }

  lemma InsertedRuleBehind(tests: Tests, before: seq<Rule>, after: seq<Rule>, n: nat, q: Query, best: nat)
    requires InsertedInto(before, n, after) && Best(tests, before, q, |before|) == Some(best)
    requires Behind(tests, before, after, n, q, best)
    ensures Best(tests, after, q, |after|) == Some(Shifted(n, best))
  {
    var i := Shifted(n, best);
    assert Origin(n, i) == best && after[i] == before[best];
    BestIsLeast(tests, before, q, |before|);
    forall j: nat | j < |after| && MatchKey(tests, after[j], q).Some? && j != i
      ensures Precedes(tests, after, q, i, j)
    {
      if j != n {
        assert Shifted(n, Origin(n, j)) == j;
        PrecedesAfterInsertion(tests, before, after, n, q, best, Origin(n, j));
      }
    }
    LeastIsBest(tests, after, q, i);
  }

  lemma InsertedRuleAhead(tests: Tests, before: seq<Rule>, after: seq<Rule>, n: nat, q: Query, best: nat)
    requires InsertedInto(before, n, after) && Best(tests, before, q, |before|) == Some(best)
    requires !Behind(tests, before, after, n, q, best)
    ensures Best(tests, after, q, |after|) != Some(Shifted(n, best))
  {
    var i := Shifted(n, best);
    assert Origin(n, i) == best && after[i] == before[best];
    BestIsLeast(tests, after, q, |after|);
    assert !Precedes(tests, after, q, i, n);
  }

  lemma StillNoMatchIff(tests: Tests, before: seq<Rule>, after: seq<Rule>, n: nat, q: Query)
    requires InsertedInto(before, n, after) && Best(tests, before, q, |before|).None?
    ensures Best(tests, after, q, |after|).None? <==> MatchKey(tests, after[n], q).None?
  {
    BestIsLeast(tests, before, q, |before|);
    forall j: nat | j < |after| && j != n
      ensures MatchKey(tests, after[j], q).None?
    {
      assert after[j] == before[Origin(n, j)];
    }
    BestIsLeast(tests, after, q, |after|);
  }

  /** The rule selected stays the same rule, or stays absent. */
  predicate SameChoice(before: Option<nat>, n: nat, after: Option<nat>) {
    match before
    case None => after.None?
    case Some(i) => after == Some(Shifted(n, i))
  }

  /** A rule inserted at n does not match, has a greater (tier, priority) than the selected rule, or has the
      same one and stands later. With no rule selected it must not match. */
  ghost predicate Harmless(tests: Tests, before: seq<Rule>, n: nat, extra: Rule, q: Query) {
    var best, k := Best(tests, before, q, |before|), MatchKey(tests, extra, q);
    match best
    case None => k.None?
    case Some(i) =>
      var kBest := MatchKey(tests, before[i], q).value;
      k.None? || !Leq(k.value, kBest) || (k.value == kBest && i < n)
  }

  lemma InsertionIsHarmlessIff(tests: Tests, before: seq<Rule>, after: seq<Rule>, n: nat, q: Query)
    requires InsertedInto(before, n, after)
    ensures SameChoice(Best(tests, before, q, |before|), n, Best(tests, after, q, |after|))
            <==> Harmless(tests, before, n, after[n], q)
  {
    var best := Best(tests, before, q, |before|);
    if best.None? {
      StillNoMatchIff(tests, before, after, n, q);
    } else if Behind(tests, before, after, n, q, best.value) {
      InsertedRuleBehind(tests, before, after, n, q, best.value);
    } else {
      InsertedRuleAhead(tests, before, after, n, q, best.value);
    }
  }

  lemma SameChoiceSameAnswer(tests: Tests, before: seq<Rule>, after: seq<Rule>, n: nat, q: Query)
    requires InsertedInto(before, n, after)
    requires SameChoice(Best(tests, before, q, |before|), n, Best(tests, after, q, |after|))
    ensures Answer(tests, after, q) == Answer(tests, before, q)
  {
    var best := Best(tests, before, q, |before|);
    if best.Some? {
      assert Origin(n, Shifted(n, best.value)) == best.value;
      assert after[Shifted(n, best.value)] == before[best.value];
    }
  }

  /** A rule added anywhere leaves the selected rule selected if and only if it is harmless, and then the
      matcher gives the same answer. */
  lemma AddedRuleIsHarmlessIff(tests: Tests, a: seq<Rule>, b: seq<Rule>, extra: Rule, q: Query)
    ensures SameChoice(Best(tests, a + b, q, |a + b|), |a|, Best(tests, a + [extra] + b, q, |a + [extra] + b|))
            <==> Harmless(tests, a + b, |a|, extra, q)
    ensures Harmless(tests, a + b, |a|, extra, q) ==> Answer(tests, a + [extra] + b, q) == Answer(tests, a + b, q)
  {
    var before, after, n := a + b, a + [extra] + b, |a|;
    forall j: nat | j < |after| && j != n
      ensures after[j] == before[Origin(n, j)]
    {
      InsertedAt(a, b, extra, j);
    }
    assert after[n] == extra;
    InsertionIsHarmlessIff(tests, before, after, n, q);
    if Harmless(tests, before, n, extra, q) {
      SameChoiceSameAnswer(tests, before, after, n, q);
    }
  }

  lemma InsertedAt(a: seq<Rule>, b: seq<Rule>, extra: Rule, j: nat)
    requires j < |a| + 1 + |b| && j != |a|
    ensures (a + [extra] + b)[j] == (a + b)[Origin(|a|, j)]
  {
  }
}
