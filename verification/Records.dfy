/** Provisioning records, their stored forms, and the three storage backends
    (tftpos/state.py, tftpos/db.py). JSON text and SQL are abstracted to the values they hold. */
module Records {
  import opened Common

  datatype ProvisionState = Registered | Booting | Installing | PostInstall | Complete | Failed

  function Value(s: ProvisionState): string {
    match s
    case Registered => "registered"
    case Booting => "booting"
    case Installing => "installing"
    case PostInstall => "post_install"
    case Complete => "complete"
    case Failed => "failed"
  }

  /** `ProvisionState(text)`, which raises ValueError on any other text. */
  function ParseState(text: string): Option<ProvisionState> {
    if text == "registered" then Some(Registered)
    else if text == "booting" then Some(Booting)
    else if text == "installing" then Some(Installing)
    else if text == "post_install" then Some(PostInstall)
    else if text == "complete" then Some(Complete)
    else if text == "failed" then Some(Failed)
    else None
  }

  datatype Entry = Entry(state: ProvisionState, time: real)

  datatype Record = Record(
    mac: string, profile: string, osFamily: string, osVersion: string,
    state: ProvisionState, startedAt: Option<real>, updatedAt: Option<real>, completedAt: Option<real>,
    errorMessage: Option<string>, history: seq<Entry>, netbootEnabled: bool)

  function Canonical(r: Record): Record {
    r.(mac := Lower(r.mac))
  }

  // ---------- Dictionaries ----------

  /** A stored dictionary; None is a missing key, and for the nullable fields also a null. */
  datatype HistoryDict = HistoryDict(state: Option<string>, timestamp: Option<real>)

  datatype Dict = Dict(
    mac: Option<string>, profile: Option<string>, osFamily: Option<string>, osVersion: Option<string>,
    state: Option<string>, startedAt: Option<real>, updatedAt: Option<real>, completedAt: Option<real>,
    errorMessage: Option<string>, history: Option<seq<HistoryDict>>, netbootEnabled: Option<bool>)

  datatype Malformed = KeyError | ValueError

  function EntryToDict(e: Entry): HistoryDict {
    HistoryDict(Some(Value(e.state)), Some(e.time))
  }

  function HistoryToDicts(history: seq<Entry>): seq<HistoryDict> {
    seq(|history|, i requires 0 <= i < |history| => EntryToDict(history[i]))
  }

  function RecordToDict(r: Record): Dict {
    Dict(Some(r.mac), Some(r.profile), Some(r.osFamily), Some(r.osVersion), Some(Value(r.state)),
         r.startedAt, r.updatedAt, r.completedAt, r.errorMessage,
         Some(HistoryToDicts(r.history)), Some(r.netbootEnabled))
  }

  function DictToEntry(d: HistoryDict): Result<Entry, Malformed> {
    if d.state.None? then Err(KeyError)
    else if ParseState(d.state.value).None? then Err(ValueError)
    else if d.timestamp.None? then Err(KeyError)
    else Ok(Entry(ParseState(d.state.value).value, d.timestamp.value))
  }

  function DictsToHistory(ds: seq<HistoryDict>): Result<seq<Entry>, Malformed> {
    if ds == [] then Ok([])
    else match DictToEntry(ds[0])
      case Err(e) => Err(e)
      case Ok(first) =>
        match DictsToHistory(ds[1..])
        case Err(e) => Err(e)
        case Ok(rest) => Ok([first] + rest)
  }

  function DictToRecord(d: Dict): Result<Record, Malformed> {
    match DictsToHistory(if d.history.Some? then d.history.value else [])
    case Err(e) => Err(e)
    case Ok(history) =>
      if d.mac.None? || d.profile.None? || d.osFamily.None? || d.osVersion.None? || d.state.None? then Err(KeyError)
      else if ParseState(d.state.value).None? then Err(ValueError)
      else Ok(Record(
        d.mac.value, d.profile.value, d.osFamily.value, d.osVersion.value, ParseState(d.state.value).value,
        d.startedAt, d.updatedAt, d.completedAt, d.errorMessage, history,
        if d.netbootEnabled.Some? then d.netbootEnabled.value else true))
  }

  /** The stored names of the states, and no others, are read back as the states. */
  lemma StateNames(text: string)
    ensures Value(Registered) == "registered" && Value(Booting) == "booting" && Value(Installing) == "installing"
    ensures Value(PostInstall) == "post_install" && Value(Complete) == "complete" && Value(Failed) == "failed"
    ensures forall s: ProvisionState :: ParseState(text) == Some(s) <==> text == Value(s)
  {
  }

  /** A stored history is read back exactly if every entry has the name of a state and a time. */
  lemma {:induction false} HistoryDecodesIff(ds: seq<HistoryDict>)
    ensures DictsToHistory(ds).Ok?
            <==> forall i | 0 <= i < |ds| :: ds[i].state.Some? && ParseState(ds[i].state.value).Some? && ds[i].timestamp.Some?
    ensures DictsToHistory(ds).Ok? ==>
              && |DictsToHistory(ds).value| == |ds|
              && forall i | 0 <= i < |ds| ::
                   && Some(DictsToHistory(ds).value[i].state) == ParseState(ds[i].state.value)
                   && Some(DictsToHistory(ds).value[i].time) == ds[i].timestamp
  {
    if ds != [] {
      HistoryDecodesIff(ds[1..]);
      var head := DictToEntry(ds[0]);
      assert DictsToHistory(ds).Ok? <==> head.Ok? && DictsToHistory(ds[1..]).Ok?;
      assert head.Ok? <==> ds[0].state.Some? && ParseState(ds[0].state.value).Some? && ds[0].timestamp.Some?;
      assert forall i | 0 <= i < |ds| - 1 :: ds[1..][i] == ds[i + 1];
      assert forall i | 1 <= i < |ds| :: ds[i] == ds[1..][i - 1];
    }
  }

  /** A dictionary is read back exactly if it has the five texts, a state that has that name, and a history, if
      any, that is read back; each attribute comes from its own key. Without a history it is empty, without a
      netboot flag it is set. */
  lemma DictDecodesIff(d: Dict)
    ensures var history := DictsToHistory(if d.history.Some? then d.history.value else []);
            && (DictToRecord(d).Ok?
                <==> && d.mac.Some? && d.profile.Some? && d.osFamily.Some? && d.osVersion.Some?
                     && d.state.Some? && ParseState(d.state.value).Some? && history.Ok?)
            && (DictToRecord(d).Ok? ==>
                  var r := DictToRecord(d).value;
                  && Some(r.mac) == d.mac && Some(r.profile) == d.profile
                  && Some(r.osFamily) == d.osFamily && Some(r.osVersion) == d.osVersion
                  && Some(r.state) == ParseState(d.state.value)
                  && r.startedAt == d.startedAt && r.updatedAt == d.updatedAt && r.completedAt == d.completedAt
                  && r.errorMessage == d.errorMessage && history == Ok(r.history)
                  && r.netbootEnabled == (d.netbootEnabled != Some(false)))
  {
  }

  /** The same for a row, which has all attributes. */
  lemma RowDecodesIff(row: Row)
    ensures RowToRecord(row).Ok? <==> ParseState(row.state).Some? && DictsToHistory(row.history).Ok?
    ensures RowToRecord(row).Ok? ==>
              var r := RowToRecord(row).value;
              && r.mac == row.mac && r.profile == row.profile && r.osFamily == row.osFamily && r.osVersion == row.osVersion
              && Some(r.state) == ParseState(row.state)
              && r.startedAt == row.startedAt && r.updatedAt == row.updatedAt && r.completedAt == row.completedAt
              && r.errorMessage == row.errorMessage && DictsToHistory(row.history) == Ok(r.history)
              && r.netbootEnabled == row.netbootEnabled
  {
  }

  lemma StateRoundTrip(s: ProvisionState)
    ensures ParseState(Value(s)) == Some(s)
  {
  }

  lemma {:induction false} HistoryRoundTrip(history: seq<Entry>)
    ensures DictsToHistory(HistoryToDicts(history)) == Ok(history)
  {
    var ds := HistoryToDicts(history);
    if history != [] {
      StateRoundTrip(history[0].state);
      assert ds[0] == EntryToDict(history[0]) && ds[1..] == HistoryToDicts(history[1..]);
      HistoryRoundTrip(history[1..]);
      assert [history[0]] + history[1..] == history;
    } else {
      assert ds == [];
    }
  }

  /** Reading back a stored record gives the record. */
  lemma DictRoundTrip(r: Record)
    ensures DictToRecord(RecordToDict(r)) == Ok(r)
  {
    HistoryRoundTrip(r.history);
    StateRoundTrip(r.state);
  }

  // ---------- Rows ----------

  datatype Row = Row(
    mac: string, profile: string, osFamily: string, osVersion: string,
    state: string, startedAt: Option<real>, updatedAt: Option<real>, completedAt: Option<real>,
    errorMessage: Option<string>, history: seq<HistoryDict>, netbootEnabled: bool)

  function RecordToRow(r: Record): Row {
    Row(Lower(r.mac), r.profile, r.osFamily, r.osVersion, Value(r.state),
        r.startedAt, r.updatedAt, r.completedAt, r.errorMessage, HistoryToDicts(r.history), r.netbootEnabled)
  }

  function RowToRecord(row: Row): Result<Record, Malformed> {
    match DictsToHistory(row.history)
    case Err(e) => Err(e)
    case Ok(history) =>
      if ParseState(row.state).None? then Err(ValueError)
      else Ok(Record(row.mac, row.profile, row.osFamily, row.osVersion, ParseState(row.state).value,
                     row.startedAt, row.updatedAt, row.completedAt, row.errorMessage, history, row.netbootEnabled))
  }

  /** The update branch of `save`: it leaves the row that inserting the record would have made. */
  method UpdateRow(row: Row, r: Record) returns (updated: Row)
    requires row.mac == Lower(r.mac)
    ensures updated == RecordToRow(r)
  {
    updated := row.(
      profile := r.profile, osFamily := r.osFamily, osVersion := r.osVersion, state := Value(r.state),
      startedAt := r.startedAt, updatedAt := r.updatedAt, completedAt := r.completedAt,
      errorMessage := r.errorMessage, history := HistoryToDicts(r.history), netbootEnabled := r.netbootEnabled);
  }

  /** A row gives the record back with its MAC in lower case. */
  lemma RowRoundTrip(r: Record)
    ensures RowToRecord(RecordToRow(r)) == Ok(Canonical(r)) == Ok(r.(mac := Lower(r.mac)))
  {
    HistoryRoundTrip(r.history);
    StateRoundTrip(r.state);
  }

  // ---------- Backends ----------

  /** What a store keeps: one record per lower-case MAC. */
  type Store = map<string, Record>

  ghost predicate Keyed(m: Store) {
    forall k | k in m :: Lower(m[k].mac) == k
  }

  function Find(m: Store, mac: string): Option<Record> {
    if Lower(mac) in m then Some(m[Lower(mac)]) else None
  }

  /** A list of exactly the records of a store, each once. */
  ghost predicate Lists(m: Store, records: seq<Record>) {
    ListsKeys(m, m.Keys, records)
  }

  /** ... of those records that have a key in `done`. */
  ghost predicate ListsKeys(m: Store, done: set<string>, records: seq<Record>) {
    && (forall i | 0 <= i < |records| :: Lower(records[i].mac) in m.Keys * done && m[Lower(records[i].mac)] == records[i])
    && (forall i, j | 0 <= i < j < |records| :: Lower(records[i].mac) != Lower(records[j].mac))
    && (forall k | k in m.Keys * done :: HasKey(records, k))
  }

  ghost predicate HasKey(records: seq<Record>, k: string) {
    exists i :: 0 <= i < |records| && Lower(records[i].mac) == k
  }

  lemma ListOneMore(m: Store, done: set<string>, all: seq<Record>, k: string)
    requires Keyed(m) && ListsKeys(m, done, all) && k in m && k !in done
    ensures ListsKeys(m, done + {k}, all + [m[k]])
  {
    var all' := all + [m[k]];
    forall l | l in m.Keys * (done + {k})
      ensures HasKey(all', l)
    {
      if l == k {
        assert Lower(all'[|all|].mac) == k;
      } else {
        assert HasKey(all, l);
        var i :| 0 <= i < |all| && Lower(all[i].mac) == l;
        assert Lower(all'[i].mac) == l;
      }
    }
  }

  /** Reads every stored item, in any order. */
  method ReadAll<T>(items: map<string, T>, read: T --> Record, ghost view: Store) returns (all: seq<Record>)
    requires Keyed(view) && view.Keys == items.Keys
    requires forall k | k in items :: read.requires(items[k]) && read(items[k]) == view[k]
    ensures Lists(view, all)
  {
    all := [];
    var keys := items.Keys;
    while keys != {}
      invariant keys <= view.Keys
      invariant ListsKeys(view, view.Keys - keys, all)
    {
      var k :| k in keys;
      ListOneMore(view, view.Keys - keys, all, k);
      keys := keys - {k};
      assert view.Keys - keys == view.Keys - (keys + {k}) + {k};
      all := all + [read(items[k])];
    }
    assert view.Keys - {} == view.Keys;
  }

  /** The order of `updated_at`. A row without one counts as earliest; databases differ in this, and
      `LatestFirst` does not promise it. */
  predicate NotLater(a: Option<real>, b: Option<real>) {
    a.None? || (b.Some? && a.value <= b.value)
  }

  ghost predicate LatestFirst(records: seq<Record>) {
    forall i, j | 0 <= i < j < |records| && records[i].updatedAt.Some? && records[j].updatedAt.Some? ::
      records[i].updatedAt.value >= records[j].updatedAt.value
  }

  class MemoryBackend {
    var records: Store

    constructor ()
      ensures Valid() && records == map[]
    {
      records := map[];
    }

    ghost predicate Valid()
      reads this
    {
      Keyed(records)
    }

    method Save(record: Record)
      requires Valid()
      modifies this
      ensures Valid() && records == old(records)[Lower(record.mac) := record]
    {
      records := records[Lower(record.mac) := record];
    }

    method Get(mac: string) returns (r: Option<Record>)
      requires Valid()
      ensures r == Find(records, mac) == if Lower(mac) in records then Some(records[Lower(mac)]) else None
    {
      if Lower(mac) in records {
        return Some(records[Lower(mac)]);
      }
      return None;
    }

    method ListAll() returns (all: seq<Record>)
      requires Valid()
      ensures Lists(records, all)
    {
      all := ReadAll(records, r => r, records);
    }

    method Delete(mac: string) returns (existed: bool)
      requires Valid()
      modifies this
      ensures Valid() && records == old(records) - {Lower(mac)}
      ensures existed <==> Lower(mac) in old(records)
    {
      existed := Lower(mac) in records;
      records := records - {Lower(mac)};
    }

    method Clear()
      modifies this
      ensures Valid() && records == map[]
    {
      records := map[];
    }
  }

  /** A JSON file whose dictionaries are those of the records of a store. */
  ghost predicate FileHolds(data: map<string, Dict>, m: Store) {
    && data.Keys == m.Keys
    && forall k {:trigger data[k]} | k in data :: data[k] == RecordToDict(m[k]) && Lower(m[k].mac) == k
  }

  lemma FileReads(data: map<string, Dict>, m: Store)
    requires FileHolds(data, m)
    ensures Keyed(m)
    ensures forall k | k in data :: DictToRecord(data[k]) == Ok(m[k])
  {
    forall k | k in data
      ensures DictToRecord(data[k]) == Ok(m[k]) && Lower(m[k].mac) == k
    {
      DictRoundTrip(m[k]);
    }
    forall k | k in m
      ensures Lower(m[k].mac) == k
    {
      assert data[k] == RecordToDict(m[k]);
    }
  }

  class JSONBackend {
    /** The contents of the file, and the store they encode. */
    var data: map<string, Dict>
    ghost var contents: Store

    constructor ()
      ensures Valid() && contents == map[]
    {
      data, contents := map[], map[];
    }

    ghost predicate Valid()
      reads this
    {
      FileHolds(data, contents)
    }

    method Save(record: Record)
      requires Valid()
      modifies this
      ensures Valid() && contents == old(contents)[Lower(record.mac) := record]
    {
      data := data[Lower(record.mac) := RecordToDict(record)];
      contents := contents[Lower(record.mac) := record];
    }

    method Get(mac: string) returns (r: Option<Record>)
      requires Valid()
      ensures r == Find(contents, mac) == if Lower(mac) in contents then Some(contents[Lower(mac)]) else None
    {
      FileReads(data, contents);
      if Lower(mac) !in data {
        return None;
      }
      return Some(DictToRecord(data[Lower(mac)]).value);
    }

    method ListAll() returns (all: seq<Record>)
      requires Valid()
      ensures Lists(contents, all)
    {
      FileReads(data, contents);
      all := ReadAll(data, (d: Dict) requires DictToRecord(d).Ok? => DictToRecord(d).value, contents);
    }

    method Delete(mac: string) returns (existed: bool)
      requires Valid()
      modifies this
      ensures Valid() && contents == old(contents) - {Lower(mac)}
      ensures existed <==> Lower(mac) in old(contents)
    {
      existed := Lower(mac) in data;
      data := data - {Lower(mac)};
      contents := contents - {Lower(mac)};
    }

    method Clear()
      modifies this
      ensures Valid() && contents == map[]
    {
      data, contents := map[], map[];
    }
  }

  /** A table whose rows are those of the records of a store; its MACs are in lower case. */
  ghost predicate TableHolds(rows: map<string, Row>, m: Store) {
    && rows.Keys == m.Keys
    && forall k {:trigger rows[k]} | k in rows :: rows[k] == RecordToRow(m[k]) && m[k].mac == k && Lower(k) == k
  }

  lemma TableReads(rows: map<string, Row>, m: Store)
    requires TableHolds(rows, m)
    ensures Keyed(m)
    ensures forall k | k in rows :: RowToRecord(rows[k]) == Ok(m[k]) && rows[k].mac == k
  {
    forall k | k in rows
      ensures RowToRecord(rows[k]) == Ok(m[k]) && rows[k].mac == k && Lower(m[k].mac) == k
    {
      RowRoundTrip(m[k]);
    }
    forall k | k in m
      ensures Lower(m[k].mac) == k
    {
      assert rows[k] == RecordToRow(m[k]);
    }
  }

  /** The keys, each once. */
  ghost predicate Enumerates(order: seq<string>, keys: set<string>) {
    && (forall i | 0 <= i < |order| :: order[i] in keys)
    && (forall k | k in keys :: k in order)
    && (forall i, j | 0 <= i < j < |order| :: order[i] != order[j])
  }

  lemma EnumerateOneMore(order: seq<string>, keys: set<string>, k: string)
    requires Enumerates(order, keys) && k !in keys
    ensures Enumerates(order + [k], keys + {k})
  {
  }

  lemma EnumeratedIsListed(m: Store, order: seq<string>, all: seq<Record>)
    requires Keyed(m) && Enumerates(order, m.Keys)
    requires |all| == |order| && forall i | 0 <= i < |order| :: order[i] in m && all[i] == m[order[i]]
    ensures Lists(m, all)
  {
    assert forall i | 0 <= i < |all| :: order[i] in m.Keys && Lower(all[i].mac) == order[i];
    forall k | k in m.Keys * m.Keys
      ensures HasKey(all, k)
    {
      var i :| 0 <= i < |order| && order[i] == k;
      assert Lower(all[i].mac) == k;
    }
  }

  lemma RowsOrderRecords(rows: map<string, Row>, m: Store, order: seq<string>, all: seq<Record>)
    requires TableHolds(rows, m) && |all| == |order|
    requires forall i | 0 <= i < |order| :: order[i] in m && all[i] == m[order[i]]
    requires forall i, j | 0 <= i < j < |order| :: NotLater(rows[order[j]].updatedAt, rows[order[i]].updatedAt)
    ensures LatestFirst(all)
  {
    assert forall i | 0 <= i < |order| :: rows[order[i]].updatedAt == all[i].updatedAt;
  }

  class SQLAlchemyBackend {
    /** The table by primary key, and the store it encodes. */
    var rows: map<string, Row>
    ghost var contents: Store

    constructor ()
      ensures Valid() && contents == map[]
    {
      rows, contents := map[], map[];
    }

    ghost predicate Valid()
      reads this
    {
      TableHolds(rows, contents)
    }

    /** Updates every column but the key of an existing row, or inserts a row. */
    method Save(record: Record)
      requires Valid()
      modifies this
      ensures Valid() && contents == old(contents)[Lower(record.mac) := Canonical(record)]
    {
      var key := Lower(record.mac);
      LowerIdempotent(record.mac);
      if key in rows {
        assert rows[key] == RecordToRow(contents[key]);
        var row := UpdateRow(rows[key], record);
        rows := rows[key := row];
      } else {
        rows := rows[key := RecordToRow(record)];
      }
      contents := contents[key := Canonical(record)];
    }

    method Get(mac: string) returns (r: Option<Record>)
      requires Valid()
      ensures r == Find(contents, mac) == if Lower(mac) in contents then Some(contents[Lower(mac)]) else None
    {
      if Lower(mac) !in rows {
        return None;
      }
      var record := ReadRow(Lower(mac));
      return Some(record);
    }

    /** Among the rows with these keys, one with the latest `updated_at`. */
    method LatestKey(keys: set<string>) returns (latest: string)
      requires keys != {} && keys <= rows.Keys
      ensures latest in keys && forall k <- keys :: NotLater(rows[k].updatedAt, rows[latest].updatedAt)
    {
      latest :| latest in keys;
      var rest := keys - {latest};
      while rest != {}
        invariant rest < keys && latest in keys - rest
        invariant forall k <- keys - rest :: NotLater(rows[k].updatedAt, rows[latest].updatedAt)
        decreases rest
      {
        var k :| k in rest;
        if !NotLater(rows[k].updatedAt, rows[latest].updatedAt) {
          latest := k;
        }
        rest := rest - {k};
      }
    }

    /** All keys, by `updated_at`, the latest first. */
    method OrderedKeys() returns (order: seq<string>)
      ensures Enumerates(order, rows.Keys)
      ensures forall i, j | 0 <= i < j < |order| :: NotLater(rows[order[j]].updatedAt, rows[order[i]].updatedAt)
    {
      order := [];
      var keys := rows.Keys;
      while keys != {}
        invariant keys <= rows.Keys && Enumerates(order, rows.Keys - keys)
        invariant forall i, j | 0 <= i < j < |order| :: NotLater(rows[order[j]].updatedAt, rows[order[i]].updatedAt)
        invariant forall i, k | 0 <= i < |order| && k in keys :: NotLater(rows[k].updatedAt, rows[order[i]].updatedAt)
      {
        var k := LatestKey(keys);
        EnumerateOneMore(order, rows.Keys - keys, k);
        keys := keys - {k};
        assert rows.Keys - keys == rows.Keys - (keys + {k}) + {k};
        order := order + [k];
      }
      assert rows.Keys - {} == rows.Keys;
    }

    method ReadRow(key: string) returns (r: Record)
      requires Valid() && key in rows
      ensures r == contents[key]
    {
      TableReads(rows, contents);
      r := RowToRecord(rows[key]).value;
    }

    /** The records, the latest first. */
    method ListAll() returns (all: seq<Record>)
      requires Valid()
      ensures Lists(contents, all) && LatestFirst(all)
    {
      var order := OrderedKeys();
      all := [];
      for i := 0 to |order|
        invariant |all| == i && forall j | 0 <= j < i :: all[j] == contents[order[j]]
      {
        var record := ReadRow(order[i]);
        all := all + [record];
      }
      TableReads(rows, contents);
      EnumeratedIsListed(contents, order, all);
      RowsOrderRecords(rows, contents, order, all);
    }

    method Delete(mac: string) returns (existed: bool)
      requires Valid()
      modifies this
      ensures Valid() && contents == old(contents) - {Lower(mac)}
      ensures existed <==> Lower(mac) in old(contents)
    {
      existed := Lower(mac) in rows;
      rows := rows - {Lower(mac)};
      contents := contents - {Lower(mac)};
    }

    method Clear()
      modifies this
      ensures Valid() && contents == map[]
    {
      rows, contents := map[], map[];
    }
  }
}
