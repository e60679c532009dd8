/** The provision tracker of tftpos/state.py as a write-through map over a storage backend of
    tftpos/db.py, and the migration between backends. */
module Tracker {
  import opened Common
  import opened Records

  // ---------- What the operations do ----------

  /** `saved` says whether the backend takes the save; if not, the operation raises after it has changed the
      record in memory and before it fires callbacks. */
  datatype Op =
    | Register(now: real, mac: string, profile: string, osFamily: string, osVersion: string, saved: bool)
    | Transition(now: real, mac: string, newState: ProvisionState, error: Option<string>, saved: bool)
    | SetNetboot(mac: string, enabled: bool, saved: bool)
    | Clear(saved: bool)

  /** One firing of the callbacks of a state, for the record with this key. */
  datatype Firing = Firing(key: string, entry: Entry)

  /** The records in memory, those in the backend, and the callbacks fired so far. */
  datatype Tracked = Tracked(records: Store, stored: Store, fired: seq<Firing>)

  function NewRecord(now: real, mac: string, profile: string, osFamily: string, osVersion: string): Record {
    Record(mac, profile, osFamily, osVersion, Registered, Some(now), Some(now), None, None, [Entry(Registered, now)], true)
  }

  function Transitioned(r: Record, now: real, newState: ProvisionState, error: Option<string>): Record {
    r.(state := newState, updatedAt := Some(now), history := r.history + [Entry(newState, now)],
       completedAt := if newState == Complete then Some(now) else r.completedAt,
       errorMessage := if error.Some? && error.value != "" then error else r.errorMessage)
  }

  /** The record of k becomes r in memory and, if the backend takes it, in the backend; then callbacks fire. */
  function Written(t: Tracked, k: string, r: Record, saved: bool, firings: seq<Firing>): Tracked {
    if saved then Tracked(t.records[k := r], t.stored[k := r], t.fired + firings) else t.(records := t.records[k := r])
  }

  /** Operations on an unknown MAC raise and change nothing. Any state may follow any other. */
  function Apply(t: Tracked, op: Op): Tracked {
    match op
    case Register(now, mac, profile, osFamily, osVersion, saved) =>
      var k := Lower(mac);
      Written(t, k, NewRecord(now, mac, profile, osFamily, osVersion), saved, [Firing(k, Entry(Registered, now))])
    case Transition(now, mac, newState, error, saved) =>
      var k := Lower(mac);
      if k !in t.records then t
      else Written(t, k, Transitioned(t.records[k], now, newState, error), saved, [Firing(k, Entry(newState, now))])
    case SetNetboot(mac, enabled, saved) =>
      var k := Lower(mac);
      if k !in t.records then t else Written(t, k, t.records[k].(netbootEnabled := enabled), saved, [])
    case Clear(saved) => Tracked(map[], if saved then map[] else t.stored, t.fired)
  }

  // ---------- Backends ----------

  datatype Backend =
    | NoBackend
    | Memory(memory: MemoryBackend)
    | Json(json: JSONBackend)
    | Sql(sql: SQLAlchemyBackend)

  ghost function Objects(b: Backend): set<object> {
    match b
    case NoBackend => {}
    case Memory(x) => {x}
    case Json(x) => {x}
    case Sql(x) => {x}
  }

  ghost function CanonicalStore(m: Store): Store {
    map k | k in m :: Canonical(m[k])
  }

  /** The backend is intact and holds exactly the records of m; SQL keeps MACs in lower case. */
  ghost predicate Mirrors(b: Backend, m: Store)
    reads Objects(b)
  {
    match b
    case NoBackend => true
    case Memory(x) => x.Valid() && x.records == m
    case Json(x) => x.Valid() && x.contents == m
    case Sql(x) => x.Valid() && x.contents == CanonicalStore(m)
  }

  lemma CanonicalUpdate(m: Store, k: string, r: Record)
    ensures CanonicalStore(m[k := r]) == CanonicalStore(m)[k := Canonical(r)]
  {
  }

  method SaveToSql(x: SQLAlchemyBackend, r: Record, ghost m: Store)
    requires x.Valid() && x.contents == CanonicalStore(m)
    modifies x
    ensures x.Valid() && x.contents == CanonicalStore(m[Lower(r.mac) := r])
  {
    CanonicalUpdate(m, Lower(r.mac), r);
    x.Save(r);
  }

  method SaveTo(b: Backend, r: Record, ghost m: Store)
    requires Mirrors(b, m)
    modifies Objects(b)
    ensures Mirrors(b, m[Lower(r.mac) := r])
  {
    match b {
      case NoBackend =>
      case Memory(x) => x.Save(r);
      case Json(x) => x.Save(r);
      case Sql(x) => SaveToSql(x, r, m);
    }
  }

  /** Whether a save is taken, if the storage fails or not: without a backend there is none to fail, and the
      in-memory backend assigns to a dictionary. */
  predicate Saves(b: Backend, fails: bool) {
    fails ==> b.NoBackend? || b.Memory?
  }

  lemma SavesIff(b: Backend, fails: bool)
    ensures Saves(b, fails) <==> !fails || b.NoBackend? || b.Memory?
  {
  }

  method ClearAll(b: Backend, ghost m: Store)
    requires Mirrors(b, m)
    modifies Objects(b)
    ensures Mirrors(b, map[])
  {
    match b {
      case NoBackend =>
      case Memory(x) => x.Clear();
      case Json(x) => x.Clear();
      case Sql(x) =>
        x.Clear();
        assert CanonicalStore(map[]) == map[];
    }
  }

  /** Two stores answer every `get` alike, up to the letter case of the MAC in the record. */
  ghost predicate Agree(m: Store, m': Store) {
    forall mac: string :: SameAnswer(Find(m, mac), Find(m', mac))
  }

  ghost predicate SameAnswer(a: Option<Record>, b: Option<Record>) {
    match (a, b)
    case (None, None) => true
    case (Some(r), Some(s)) => Canonical(r) == Canonical(s)
    case _ => false
  }

  /** Whatever two stores one backend mirrors, they agree: what a new tracker loads from the backend
      answers as the tracker that wrote to it. */
  lemma MirroredStoresAgree(b: Backend, m: Store, m': Store)
    requires !b.NoBackend? && Mirrors(b, m) && Mirrors(b, m')
    ensures Agree(m, m')
    ensures m.Keys == m'.Keys && forall k | k in m :: m[k].(mac := Lower(m[k].mac)) == m'[k].(mac := Lower(m'[k].mac))
  {
    if b.Sql? {
      forall mac: string
        ensures SameAnswer(Find(m, mac), Find(m', mac))
      {
        var k := Lower(mac);
        assert (k in m <==> k in CanonicalStore(m)) && (k in m' <==> k in CanonicalStore(m'));
        assert k in m ==> Canonical(m[k]) == CanonicalStore(m)[k];
        assert k in m' ==> Canonical(m'[k]) == CanonicalStore(m')[k];
      }
      assert m.Keys == CanonicalStore(m).Keys && m'.Keys == CanonicalStore(m').Keys;
      forall k | k in m
        ensures Canonical(m[k]) == Canonical(m'[k])
      {
        assert CanonicalStore(m)[k] == CanonicalStore(m')[k];
      }
    }
  }

  /** The records that `list_all` lists. */
  ghost function Content(b: Backend): Store
    reads Objects(b)
  {
    match b
    case NoBackend => map[]
    case Memory(x) => x.records
    case Json(x) => x.contents
    case Sql(x) => x.contents
  }

  method ListAll(b: Backend, ghost held: Store) returns (all: seq<Record>)
    requires Mirrors(b, held)
    ensures Lists(Content(b), all)
  {
    match b {
      case NoBackend => all := [];
      case Memory(x) => all := x.ListAll();
      case Json(x) => all := x.ListAll();
      case Sql(x) => all := x.ListAll();
    }
  }

  lemma ContentIsMirrored(b: Backend, held: Store)
    requires Keyed(held) && Mirrors(b, held)
    ensures Keyed(Content(b)) && Mirrors(b, Content(b))
  {
    forall r: string
      ensures Lower(Lower(r)) == Lower(r)
    {
      LowerIdempotent(r);
    }
    if b.Sql? {
      assert CanonicalStore(CanonicalStore(held)) == CanonicalStore(held);
    }
  }

  /** The dictionary built by storing listed records one after the other. */
  function Loaded(all: seq<Record>, n: nat): Store
    requires n <= |all|
  {
    if n == 0 then map[] else Loaded(all, n - 1)[Lower(all[n - 1].mac) := all[n - 1]]
  }

  lemma {:induction false} LoadedSoFar(m: Store, all: seq<Record>, n: nat)
    requires Lists(m, all) && n <= |all|
    ensures forall k | k in Loaded(all, n) :: k in m && Loaded(all, n)[k] == m[k]
    ensures forall i | 0 <= i < n :: Lower(all[i].mac) in Loaded(all, n)
  {
    if n > 0 {
      LoadedSoFar(m, all, n - 1);
    }
  }

  lemma LoadedIsContent(m: Store, all: seq<Record>)
    requires Lists(m, all)
    ensures Loaded(all, |all|) == m
  {
    LoadedSoFar(m, all, |all|);
    forall k | k in m
      ensures k in Loaded(all, |all|)
    {
      assert k in m.Keys * m.Keys;
      assert HasKey(all, k);
    }
  }

  // ---------- The tracker ----------

  /** The mutable record object; `fields` are its attributes. */
  class ProvisionRecord {
    var fields: Record

    constructor (fields: Record)
      ensures this.fields == fields
    {
      this.fields := fields;
    }

    /** The changes a transition makes in memory. */
    method Advance(now: real, newState: ProvisionState, error: Option<string>)
      modifies this
      ensures fields == Transitioned(old(fields), now, newState, error)
    {
      fields := fields.(state := newState);
      fields := fields.(updatedAt := Some(now));
      fields := fields.(history := fields.history + [Entry(newState, now)]);
      if newState == Complete {
        fields := fields.(completedAt := Some(now));
      }
      if error.Some? && error.value != "" {
        fields := fields.(errorMessage := error);
      }
    }
  }

  datatype TrackerError = UnknownMac | SaveFailed

  class ProvisionTracker {
    const backend: Backend
    var records: map<string, ProvisionRecord>
    /** What the records say, what the backend holds, and the callbacks fired so far. */
    ghost var contents: Store
    ghost var stored: Store
    ghost var fired: seq<Firing>

    ghost predicate InMemory()
      reads this, records.Values
    {
      && records.Keys == contents.Keys && Keyed(contents)
      && (forall k {:trigger records[k]} | k in records :: records[k].fields == contents[k])
      && (forall k, l | k in records && l in records && records[k] == records[l] :: k == l)
    }

    ghost predicate Valid()
      reads this, records.Values, Objects(backend)
    {
      InMemory() && Mirrors(backend, stored)
    }

    ghost function State(): Tracked
      reads this
    {
      Tracked(contents, stored, fired)
    }

    /** A tracker over a backend starts with what the backend holds. */
    constructor (backend: Backend, ghost held: Store)
      requires Keyed(held) && Mirrors(backend, held)
      ensures Valid() && this.backend == backend && stored == contents && fired == []
      ensures forall k | k in records :: fresh(records[k])
      ensures if backend.NoBackend? then contents == map[] else Agree(held, contents)
      ensures !backend.NoBackend? ==>
                && contents.Keys == held.Keys
                && forall k | k in held :: contents[k].(mac := Lower(contents[k].mac)) == held[k].(mac := Lower(held[k].mac))
    {
      this.backend, records, contents, fired := backend, map[], map[], [];
      new;
      ContentIsMirrored(backend, held);
      var all := ListAll(backend, held);
      ghost var content := Content(backend);
      stored := content;
      LoadedIsContent(content, all);
      Load(all);
      if !backend.NoBackend? {
        MirroredStoresAgree(backend, held, content);
      }
    }

    method Load(all: seq<Record>)
      requires records == map[] && contents == map[]
      modifies this`records, this`contents
      ensures InMemory() && contents == Loaded(all, |all|)
      ensures forall k | k in records :: fresh(records[k])
    {
      for i := 0 to |all|
        invariant forall k | k in records :: fresh(records[k])
        invariant InMemory() && contents == Loaded(all, i)
      {
        var k := Lower(all[i].mac);
        var record := new ProvisionRecord(all[i]);
        records := records[k := record];
        contents := contents[k := all[i]];
      }
    }

    /** Writes a record through to the backend, which is none of the tracker's own objects. */
    method Persist(r: Record, fails: bool) returns (saved: bool)
      requires Valid()
      modifies this`stored, Objects(backend)
      ensures Valid() && saved == Saves(backend, fails)
      ensures stored == if saved then old(stored)[Lower(r.mac) := r] else old(stored)
    {
      assert this !in Objects(backend);
      assert forall k | k in records :: records[k] !in Objects(backend);
      saved := Saves(backend, fails);
      if saved {
        SaveTo(backend, r, stored);
        stored := stored[Lower(r.mac) := r];
      }
    }

    /** Keeps a new record in memory, in place of the one with the same MAC if there is one. */
    method Remember(fields: Record) returns (record: ProvisionRecord)
      requires InMemory()
      modifies this`records, this`contents
      ensures InMemory() && fresh(record) && record.fields == fields
      ensures records == old(records)[Lower(fields.mac) := record] && contents == old(contents)[Lower(fields.mac) := fields]
    {
      record := new ProvisionRecord(fields);
      records := records[Lower(fields.mac) := record];
      contents := contents[Lower(fields.mac) := fields];
    }

    /** `fails` says whether the backend raises when it is to save. */
    method Register(now: real, mac: string, profile: string, osFamily: string, osVersion: string, fails: bool)
      returns (r: Result<ProvisionRecord, TrackerError>)
      requires Valid()
      modifies this, Objects(backend)
      ensures Valid()
      ensures State() == Apply(old(State()), Op.Register(now, mac, profile, osFamily, osVersion, Saves(backend, fails)))
      ensures Lower(mac) in records && fresh(records[Lower(mac)])
      ensures records[Lower(mac)].fields
              == Record(mac, profile, osFamily, osVersion, Registered, Some(now), Some(now), None, None,
                        [Entry(Registered, now)], true)
      ensures records == old(records)[Lower(mac) := records[Lower(mac)]]
      ensures r == if Saves(backend, fails) then Ok(records[Lower(mac)]) else Err(SaveFailed)
    {
      assert this !in Objects(backend);
      var fields := NewRecord(now, mac, profile, osFamily, osVersion);
      var record := Remember(fields);
      assert record !in Objects(backend);
      var saved := Publish(fields, fails, [Firing(Lower(mac), Entry(Registered, now))]);
      return if saved then Ok(record) else Err(SaveFailed);
    }

    /** The part of a transition that happens in memory. */
    method ChangeState(record: ProvisionRecord, k: string, now: real, newState: ProvisionState, error: Option<string>)
      requires InMemory() && k in records && records[k] == record
      modifies record, this`contents
      ensures InMemory() && record.fields == Transitioned(old(contents)[k], now, newState, error)
      ensures contents == old(contents)[k := record.fields] && Lower(record.fields.mac) == k
    {
      record.Advance(now, newState, error);
      contents := contents[k := record.fields];
    }

    method ChangeNetboot(record: ProvisionRecord, k: string, enabled: bool)
      requires InMemory() && k in records && records[k] == record
      modifies record, this`contents
      ensures InMemory() && record.fields == old(contents)[k].(netbootEnabled := enabled)
      ensures contents == old(contents)[k := record.fields] && Lower(record.fields.mac) == k
    {
      record.fields := record.fields.(netbootEnabled := enabled);
      contents := contents[k := record.fields];
    }

    /** Raises for a MAC without a record and when the save fails; every new state is accepted. */
    method Transition(now: real, mac: string, newState: ProvisionState, error: Option<string>, fails: bool)
      returns (r: Result<ProvisionRecord, TrackerError>)
      requires Valid()
      modifies this, records.Values, Objects(backend)
      ensures Valid()
      ensures State() == Apply(old(State()), Op.Transition(now, mac, newState, error, Saves(backend, fails)))
      ensures r == if Lower(mac) !in old(records) then Err(UnknownMac)
                   else if Saves(backend, fails) then Ok(old(records)[Lower(mac)]) else Err(SaveFailed)
      ensures records == old(records)
      ensures Lower(mac) in records ==>
                var r := old(records[Lower(mac)].fields);
                records[Lower(mac)].fields
                == r.(state := newState, updatedAt := Some(now), history := r.history + [Entry(newState, now)],
                      completedAt := if newState == Complete then Some(now) else r.completedAt,
                      errorMessage := if error.Some? && error.value != "" then error else r.errorMessage)
    {
      var k := Lower(mac);
      if k !in records {
        return Err(UnknownMac);
      }
      var record := records[k];
      var saved := Move(record, k, now, newState, error, fails);
      return if saved then Ok(record) else Err(SaveFailed);
    }

    /** The transition of a known record: memory, backend, callbacks. */
    method Move(record: ProvisionRecord, k: string, now: real, newState: ProvisionState, error: Option<string>, fails: bool)
      returns (saved: bool)
      requires Valid() && k in records && records[k] == record
      modifies record, this`contents, this`stored, this`fired, Objects(backend)
      ensures Valid() && saved == Saves(backend, fails)
      ensures State() == Written(old(State()), k, Transitioned(old(contents)[k], now, newState, error), saved,
                                 [Firing(k, Entry(newState, now))])
    {
      assert record !in Objects(backend) && this !in Objects(backend);
      ChangeState(record, k, now, newState, error);
      saved := Publish(record.fields, fails, [Firing(k, Entry(newState, now))]);
    }

    /** Writes through and, if the save did not raise, fires the callbacks. */
    method Publish(r: Record, fails: bool, firings: seq<Firing>) returns (saved: bool)
      requires Valid()
      modifies this`stored, this`fired, Objects(backend)
      ensures Valid() && saved == Saves(backend, fails)
      ensures stored == if saved then old(stored)[Lower(r.mac) := r] else old(stored)
      ensures fired == if saved then old(fired) + firings else old(fired)
    {
      assert this !in Objects(backend);
      saved := Persist(r, fails);
      if saved {
        fired := fired + firings;
      }
    }

    /** `disable_netboot` and `enable_netboot`. */
    method SetNetboot(mac: string, enabled: bool, fails: bool) returns (r: Result<ProvisionRecord, TrackerError>)
      requires Valid()
      modifies this, records.Values, Objects(backend)
      ensures Valid() && State() == Apply(old(State()), Op.SetNetboot(mac, enabled, Saves(backend, fails)))
      ensures r == if Lower(mac) !in old(records) then Err(UnknownMac)
                   else if Saves(backend, fails) then Ok(old(records)[Lower(mac)]) else Err(SaveFailed)
      ensures records == old(records)
      ensures Lower(mac) in records ==>
                records[Lower(mac)].fields == old(records[Lower(mac)].fields).(netbootEnabled := enabled)
    {
      var k := Lower(mac);
      if k !in records {
        return Err(UnknownMac);
      }
      var record := records[k];
      var saved := Switch(record, k, enabled, fails);
      return if saved then Ok(record) else Err(SaveFailed);
    }

    /** The netboot flag of a known record: memory, backend. */
    method Switch(record: ProvisionRecord, k: string, enabled: bool, fails: bool) returns (saved: bool)
      requires Valid() && k in records && records[k] == record
      modifies record, this`contents, this`stored, Objects(backend)
      ensures Valid() && saved == Saves(backend, fails)
      ensures State() == Written(old(State()), k, old(contents)[k].(netbootEnabled := enabled), saved, [])
    {
      assert record !in Objects(backend) && this !in Objects(backend);
      ChangeNetboot(record, k, enabled);
      saved := Persist(record.fields, fails);
    }

    method Clear(fails: bool) returns (saved: bool)
      requires Valid()
      modifies this, Objects(backend)
      ensures Valid() && State() == Apply(old(State()), Op.Clear(saved)) && saved == Saves(backend, fails)
      ensures records == map[]
    {
      saved := Saves(backend, fails);
      records, contents := map[], map[];
      if saved {
        ClearAll(backend, stored);
        stored := map[];
      }
    }

    method Get(mac: string) returns (r: Option<ProvisionRecord>)
      requires Valid()
      ensures r == if Lower(mac) in records then Some(records[Lower(mac)]) else None
      ensures Find(contents, mac) == if r.Some? then Some(r.value.fields) else None
    {
      if Lower(mac) in records {
        return Some(records[Lower(mac)]);
      }
      return None;
    }

    /** Unknown MACs count as enabled. */
    method IsNetbootEnabled(mac: string) returns (enabled: bool)
      requires Valid()
      ensures enabled <==> (Lower(mac) in records ==> records[Lower(mac)].fields.netbootEnabled)
    {
      var record := Get(mac);
      if record.None? {
        return true;
      }
      return record.value.fields.netbootEnabled;
    }
  }

  // ---------- Migration ----------

  type Decoded = Result<Record, Malformed>

  function Decode(entries: seq<Dict>): seq<Decoded> {
    seq(|entries|, i requires 0 <= i < |entries| => DictToRecord(entries[i]))
  }

  /** How many of the first n entries are well formed. */
  function WellFormed(ds: seq<Decoded>, n: nat): nat
    requires n <= |ds|
  {
    if n == 0 then 0 else WellFormed(ds, n - 1) + (if ds[n - 1].Ok? then 1 else 0)
  }

  /** The store after importing the first n entries: malformed ones are skipped, later ones win. */
  function Imported(m: Store, ds: seq<Decoded>, n: nat): Store
    requires n <= |ds|
  {
    if n == 0 then m
    else
      var before := Imported(m, ds, n - 1);
      match ds[n - 1]
      case Ok(r) => before[Lower(r.mac) := Canonical(r)]
      case Err(_) => before
  }

  method MigrateJsonToSqlite(entries: seq<Dict>, target: SQLAlchemyBackend) returns (count: nat)
    requires target.Valid()
    modifies target
    ensures target.Valid() && target.contents == Imported(old(target.contents), Decode(entries), |entries|)
    ensures count == WellFormed(Decode(entries), |entries|)
    ensures count == |set i | 0 <= i < |entries| && DictToRecord(entries[i]).Ok?|
  {
    count := 0;
    ghost var ds := Decode(entries);
    for i := 0 to |entries|
      invariant target.Valid() && target.contents == Imported(old(target.contents), ds, i)
      invariant count == WellFormed(ds, i)
    {
      var decoded := DictToRecord(entries[i]);
      assert ds[i] == decoded;
      if decoded.Ok? {
        target.Save(decoded.value);
        count := count + 1;
      }
    }
    WellFormedCounts(ds, |entries|);
    assert (set i | 0 <= i < |entries| && DictToRecord(entries[i]).Ok?) == set i | 0 <= i < |entries| && ds[i].Ok?;
  }

  lemma {:induction false} WellFormedCounts(ds: seq<Decoded>, n: nat)
    requires n <= |ds|
    ensures WellFormed(ds, n) == |set i | 0 <= i < n && ds[i].Ok?|
  {
    if n > 0 {
      WellFormedCounts(ds, n - 1);
      var before, now := set i | 0 <= i < n - 1 && ds[i].Ok?, set i | 0 <= i < n && ds[i].Ok?;
      assert now == if ds[n - 1].Ok? then before + {n - 1} else before;
    }
  }

  /** After the import the last well-formed entry for a key is what the target holds for it, with the MAC in lower
      case. Malformed entries make no difference. */
  lemma {:induction false} LastWellFormedWins(target: Store, ds: seq<Decoded>, n: nat, i: nat, k: string)
    requires i < n <= |ds| && ds[i].Ok? && Lower(ds[i].value.mac) == k
    requires forall j | i < j < n && ds[j].Ok? :: Lower(ds[j].value.mac) != k
    ensures k in Imported(target, ds, n) && Imported(target, ds, n)[k] == ds[i].value.(mac := k)
    decreases n
  {
    if i < n - 1 {
      LastWellFormedWins(target, ds, n - 1, i, k);
    }
  }

  /** For a key without a well-formed entry the target holds what it held. */
  lemma {:induction false} OthersAreKept(target: Store, ds: seq<Decoded>, n: nat, k: string)
    requires n <= |ds|
    requires forall j | 0 <= j < n && ds[j].Ok? :: Lower(ds[j].value.mac) != k
    ensures k in Imported(target, ds, n) <==> k in target
    ensures k in target ==> Imported(target, ds, n)[k] == target[k]
  {
    if n > 0 {
      OthersAreKept(target, ds, n - 1, k);
    }
  }

  /** Entry i of the file is the record that `view` holds for keys[i]. */
  ghost predicate Reads(view: Store, keys: seq<string>, ds: seq<Decoded>) {
    |keys| == |ds| && forall i | 0 <= i < |keys| :: keys[i] in view && ds[i] == Ok(view[keys[i]])
  }

  lemma {:induction false} AllWellFormed(ds: seq<Decoded>, n: nat)
    requires n <= |ds| && forall i | 0 <= i < |ds| :: ds[i].Ok?
    ensures WellFormed(ds, n) == n
  {
    if n > 0 {
      AllWellFormed(ds, n - 1);
    }
  }

  /** After n imports a key among the first n holds its record, and any other key what it held before. */
  lemma {:induction false} ImportedAt(target: Store, view: Store, keys: seq<string>, ds: seq<Decoded>, n: nat, k: string)
    requires Keyed(view) && Reads(view, keys, ds) && n <= |ds|
    ensures var m := Imported(target, ds, n);
            if k in keys[..n] then k in view && k in m && m[k] == Canonical(view[k])
            else (k in m <==> k in target) && (k in m ==> m[k] == target[k])
  {
    if n > 0 {
      ImportedAt(target, view, keys, ds, n - 1, k);
      var last := keys[n - 1];
      assert ds[n - 1] == Ok(view[last]) && Lower(view[last].mac) == last;
      assert Imported(target, ds, n) == Imported(target, ds, n - 1)[last := Canonical(view[last])];
      assert keys[..n] == keys[..n - 1] + [last];
    }
  }

  /** Migrating a file that the JSON backend wrote, into whatever the database holds, loses nothing: every
      entry is counted; then the SQL backend answers for the MACs in the file as the JSON backend did, up to
      MAC letter case, and for all others as before. */
  lemma {:induction false} MigrationPreserves(
    data: map<string, Dict>, contents: Store, keys: seq<string>, entries: seq<Dict>, target: Store)
    requires FileHolds(data, contents)
    requires |keys| == |entries| && (forall k | k in data :: k in keys)
    requires forall i | 0 <= i < |keys| :: keys[i] in data && entries[i] == data[keys[i]]
    ensures WellFormed(Decode(entries), |entries|) == |entries|
    ensures var m := Imported(target, Decode(entries), |entries|);
            forall mac: string ::
              if Find(contents, mac).Some? then SameAnswer(Find(m, mac), Find(contents, mac))
              else Find(m, mac) == Find(target, mac)
  {
    FileReads(data, contents);
    var ds, n := Decode(entries), |entries|;
    AllWellFormed(ds, n);
    assert keys[..n] == keys;
    var m := Imported(target, ds, n);
    forall mac: string
      ensures if Find(contents, mac).Some? then SameAnswer(Find(m, mac), Find(contents, mac))
              else Find(m, mac) == Find(target, mac)
    {
      var k := Lower(mac);
      ImportedAt(target, contents, keys, ds, n, k);
      assert k in contents <==> k in keys;
      if k in contents {
        LowerIdempotent(contents[k].mac);
      }
    }
  }
}
