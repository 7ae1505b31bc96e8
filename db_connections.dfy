/** The write protocol of `write_data` in `API/app/connections/db_connections.py`, over an in-memory
    stand-in for the MySQL database the cursor talks to. */
module DbConnections {
  import opened Wrappers
  import opened Assoc
  import opened Json
  import DataManager
  import Dates

  /** A row of a metric table: `(CHIP_ID, DATA_ID, VALUE, DATE)`. */
  datatype Reading = Reading(chip: Json, dataId: int, value: Json, date: Json)

  /** The tables `write_data` reads and writes: `iot_chips` (one row per `CHIP_ID`), `data_types`
      (`MEASURE_NAME` to `DATA_ID`) and the metric tables by name. */
  datatype DbState = DbState(chips: seq<Json>, dataTypes: map<string, int>, tables: map<string, seq<Reading>>)

  /** The exceptions `write_data` raises. */
  datatype WriteError =
    | MissingKey(key: string)       // `data["CLIENT_ID"]` or `data["timestamp"]` raises `KeyError`
    | UnknownMeasure(key: string)   // no `data_types` row: `fetchone()` is `None` and `[0]` raises
    | NoSuchTable(key: string)      // `insert into {key}` names a table that does not exist

  /** Keys that produce a reading: all but `CLIENT_ID` and `timestamp`. */
  predicate IsMetric(key: string)
  {
    key != DataManager.ClientId && key != DataManager.Timestamp
  }

  predicate NoDuplicates<T(==)>(s: seq<T>)
  {
    forall i, j :: 0 <= i < j < |s| ==> s[i] != s[j]
  }

  /** `select CHIP_ID from iot_chips`, then insert the chip only when it is not already there: the chip
      is registered afterwards, existing rows stay in order, the other tables are untouched, and a
      table without duplicates keeps none. */
  function Register(s: DbState, chip: Json): (r: DbState)
    ensures chip in r.chips
    ensures |s.chips| <= |r.chips| && r.chips[..|s.chips|] == s.chips
    ensures r.dataTypes == s.dataTypes && r.tables == s.tables
    ensures chip in s.chips ==> r == s
    ensures NoDuplicates(s.chips) ==> NoDuplicates(r.chips)
  {
    if chip in s.chips then s else s.(chips := s.chips + [chip])
  }

  /** The row `write_data` appends for metric `key`. */
  function Append(s: DbState, key: string, row: Reading): DbState
    requires key in s.tables
  {
    s.(tables := s.tables[key := s.tables[key] + [row]])
  }

  /** The loop of `write_data` over the entries of `items`: per metric key, look up its `DATA_ID`,
      append one reading to its table and commit; the first failure ends the loop, with the rows
      already committed left in place. */
  function WriteReadings(s: DbState, chip: Json, date: Json, items: seq<(string, Json)>): (r: (DbState, Outcome<WriteError>))
    ensures r.0.chips == s.chips && r.0.dataTypes == s.dataTypes && r.0.tables.Keys == s.tables.Keys
    decreases |items|
  {
    if items == [] then (s, Pass)
    else
      var (key, value) := items[0];
      if !IsMetric(key) then WriteReadings(s, chip, date, items[1..])
      else if key !in s.dataTypes then (s, Fail(UnknownMeasure(key)))
      else if key !in s.tables then (s, Fail(NoSuchTable(key)))
      else
        var row := Reading(chip, s.dataTypes[key], value, date);
        WriteReadings(Append(s, key, row), chip, date, items[1..])
  }

  /** `write_data(cursor, data)` as a state transition. */
  function Write(s: DbState, data: seq<(string, Json)>): (r: (DbState, Outcome<WriteError>))
    ensures r.0.dataTypes == s.dataTypes && r.0.tables.Keys == s.tables.Keys
  {
    match Lookup(data, DataManager.ClientId)
    case None => (s, Fail(MissingKey(DataManager.ClientId)))
    case Some(chip) =>
      match Lookup(data, DataManager.Timestamp)
      case None => (s, Fail(MissingKey(DataManager.Timestamp)))
      case Some(date) => WriteReadings(Register(s, chip), chip, date, data)
  }

  /** One turn of the loop at entry `i`, for a key that is not a metric. */
  lemma WriteReadingsSkip(s: DbState, chip: Json, date: Json, items: seq<(string, Json)>, i: nat)
    requires i < |items| && !IsMetric(items[i].0)
    ensures WriteReadings(s, chip, date, items[i..]) == WriteReadings(s, chip, date, items[i + 1..])
  {
    assert items[i..][0] == items[i] && items[i..][1..] == items[i + 1..];
  }

  /** One turn of the loop at entry `i`, for a metric key whose lookup or insert fails. */
  lemma WriteReadingsStop(s: DbState, chip: Json, date: Json, items: seq<(string, Json)>, i: nat)
    requires i < |items| && IsMetric(items[i].0)
    requires items[i].0 !in s.dataTypes || items[i].0 !in s.tables
    ensures WriteReadings(s, chip, date, items[i..]) ==
      if items[i].0 !in s.dataTypes then (s, Fail(UnknownMeasure(items[i].0))) else (s, Fail(NoSuchTable(items[i].0)))
  {
    assert items[i..][0] == items[i];
  }

  /** One turn of the loop at entry `i`, for a metric key whose row is inserted. */
  lemma WriteReadingsRow(s: DbState, chip: Json, date: Json, items: seq<(string, Json)>, i: nat)
    requires i < |items| && IsMetric(items[i].0)
    requires items[i].0 in s.dataTypes && items[i].0 in s.tables
    ensures WriteReadings(s, chip, date, items[i..]) ==
      WriteReadings(Append(s, items[i].0, Reading(chip, s.dataTypes[items[i].0], items[i].1, date)), chip, date, items[i + 1..])
  {
    assert items[i..][0] == items[i] && items[i..][1..] == items[i + 1..];
  }

  /** A metric key the loop cannot write: no `data_types` row, or no table of that name. */
  predicate Unwritable(s: DbState, key: string)
  {
    IsMetric(key) && (key !in s.dataTypes || key !in s.tables)
  }

  /** The index of the entry where the loop stops, or `|items|` when it runs to the end. */
  function FirstUnwritable(s: DbState, items: seq<(string, Json)>): (n: nat)
    ensures n <= |items|
    ensures forall j :: 0 <= j < n ==> !Unwritable(s, items[j].0)
    ensures n < |items| ==> Unwritable(s, items[n].0)
  {
    if items == [] then 0
    else if Unwritable(s, items[0].0) then 0
    else 1 + FirstUnwritable(s, items[1..])
  }

  /** The outcome of a loop that stops at entry `n`. */
  function StopOutcome(s: DbState, items: seq<(string, Json)>, n: nat): Outcome<WriteError>
    requires n <= |items|
  {
    if n == |items| then Pass
    else if items[n].0 !in s.dataTypes then Fail(UnknownMeasure(items[n].0))
    else Fail(NoSuchTable(items[n].0))
  }

  /** The rows the entries of `items` append to table `t`, in order. */
  function RowsFor(items: seq<(string, Json)>, t: string, chip: Json, date: Json, dataTypes: map<string, int>): seq<Reading>
  {
    if items == [] then []
    else
      (if items[0].0 == t && IsMetric(t) && t in dataTypes then [Reading(chip, dataTypes[t], items[0].1, date)] else [])
      + RowsFor(items[1..], t, chip, date, dataTypes)
  }

  lemma FirstUnwritableSameKeys(s: DbState, s': DbState, items: seq<(string, Json)>)
    requires s.dataTypes == s'.dataTypes && s.tables.Keys == s'.tables.Keys
    ensures FirstUnwritable(s, items) == FirstUnwritable(s', items)
    ensures forall n: nat :: n <= |items| ==> StopOutcome(s, items, n) == StopOutcome(s', items, n)
  {
    if items != [] {
      assert Unwritable(s, items[0].0) == Unwritable(s', items[0].0);
      FirstUnwritableSameKeys(s, s', items[1..]);
    }
  }

  /** The state after the loop has written entry `e`, when it can. */
  function Next(s: DbState, chip: Json, date: Json, e: (string, Json)): DbState
    requires !Unwritable(s, e.0)
  {
    if IsMetric(e.0) then Append(s, e.0, Reading(chip, s.dataTypes[e.0], e.1, date)) else s
  }

  /** Table `t` after the loop: its rows before, then the rows of the first `n` entries. */
  ghost predicate TablesAfter(s: DbState, chip: Json, date: Json, items: seq<(string, Json)>, n: nat, tables: map<string, seq<Reading>>)
    requires n <= |items|
  {
    && tables.Keys == s.tables.Keys
    && forall t :: t in s.tables ==> tables[t] == s.tables[t] + RowsFor(items[..n], t, chip, date, s.dataTypes)
  }

  /** What the loop leaves behind, in closed form: it stops at the first unwritable entry, appends to
      each table the rows of the entries before it and touches nothing else. */
  ghost predicate Closed(s: DbState, chip: Json, date: Json, items: seq<(string, Json)>, r: (DbState, Outcome<WriteError>))
  {
    var n := FirstUnwritable(s, items);
    && r.0.chips == s.chips
    && r.0.dataTypes == s.dataTypes
    && TablesAfter(s, chip, date, items, n, r.0.tables)
    && r.1 == StopOutcome(s, items, n)
  }

  /** The rows of the first `n` entries: those of the head, then those of the rest. */
  lemma RowsForHead(items: seq<(string, Json)>, n: nat, t: string, chip: Json, date: Json, dataTypes: map<string, int>)
    requires 0 < n <= |items|
    ensures RowsFor(items[..n], t, chip, date, dataTypes) ==
      (if items[0].0 == t && IsMetric(t) && t in dataTypes then [Reading(chip, dataTypes[t], items[0].1, date)] else [])
      + RowsFor(items[1..][..n - 1], t, chip, date, dataTypes)
  {
    assert items[..n][0] == items[0] && items[..n][1..] == items[1..][..n - 1];
  }

  /** The head entry adds its row, if any, in front of the rows of the rest. */
  lemma TableAfterStep(s: DbState, chip: Json, date: Json, items: seq<(string, Json)>, n: nat, t: string, rows: seq<Reading>)
    requires 0 < n <= |items| && !Unwritable(s, items[0].0) && t in s.tables
    requires rows == Next(s, chip, date, items[0]).tables[t] + RowsFor(items[1..][..n - 1], t, chip, date, s.dataTypes)
    ensures rows == s.tables[t] + RowsFor(items[..n], t, chip, date, s.dataTypes)
  {
    RowsForHead(items, n, t, chip, date, s.dataTypes);
    var tail := RowsFor(items[1..][..n - 1], t, chip, date, s.dataTypes);
    if items[0].0 == t && IsMetric(t) {
      var row := Reading(chip, s.dataTypes[t], items[0].1, date);
      assert Next(s, chip, date, items[0]).tables[t] == s.tables[t] + [row];
      assert s.tables[t] + [row] + tail == s.tables[t] + ([row] + tail);
    } else {
      assert Next(s, chip, date, items[0]).tables[t] == s.tables[t];
    }
  }

  lemma TablesAfterStep(s: DbState, chip: Json, date: Json, items: seq<(string, Json)>, n: nat, tables: map<string, seq<Reading>>)
    requires 0 < n <= |items| && !Unwritable(s, items[0].0)
    requires TablesAfter(Next(s, chip, date, items[0]), chip, date, items[1..], n - 1, tables)
    ensures TablesAfter(s, chip, date, items, n, tables)
  {
    var s' := Next(s, chip, date, items[0]);
    assert s'.dataTypes == s.dataTypes && s'.tables.Keys == s.tables.Keys;
    forall t | t in s.tables
      ensures tables[t] == s.tables[t] + RowsFor(items[..n], t, chip, date, s.dataTypes)
    {
      TableAfterStep(s, chip, date, items, n, t, tables[t]);
    }
  }

  lemma ClosedStep(s: DbState, chip: Json, date: Json, items: seq<(string, Json)>, r: (DbState, Outcome<WriteError>))
    requires items != [] && !Unwritable(s, items[0].0)
    requires Closed(Next(s, chip, date, items[0]), chip, date, items[1..], r)
    ensures Closed(s, chip, date, items, r)
  {
    var s' := Next(s, chip, date, items[0]);
    assert s'.tables.Keys == s.tables.Keys;
    FirstUnwritableSameKeys(s, s', items[1..]);
    var n := FirstUnwritable(s, items);
    assert n == FirstUnwritable(s', items[1..]) + 1;
    TablesAfterStep(s, chip, date, items, n, r.0.tables);
  }

  lemma {:induction false} WriteReadingsClosed(s: DbState, chip: Json, date: Json, items: seq<(string, Json)>)
    ensures Closed(s, chip, date, items, WriteReadings(s, chip, date, items))
    decreases |items|
  {
    if items == [] {
    } else if Unwritable(s, items[0].0) {
      ClosedStop(s, chip, date, items);
    } else {
      var s' := Next(s, chip, date, items[0]);
      WriteReadingsNext(s, chip, date, items);
      WriteReadingsClosed(s', chip, date, items[1..]);
      ClosedStep(s, chip, date, items, WriteReadings(s, chip, date, items));
    }
  }

  lemma ClosedStop(s: DbState, chip: Json, date: Json, items: seq<(string, Json)>)
    requires items != [] && Unwritable(s, items[0].0)
    ensures Closed(s, chip, date, items, WriteReadings(s, chip, date, items))
  {
    var (key, value) := items[0];
    assert WriteReadings(s, chip, date, items) ==
      if key !in s.dataTypes then (s, Fail(UnknownMeasure(key))) else (s, Fail(NoSuchTable(key)));
    assert FirstUnwritable(s, items) == 0 && items[..0] == [];
    assert TablesAfter(s, chip, date, items, 0, s.tables) by {
      forall t | t in s.tables
        ensures s.tables[t] == s.tables[t] + RowsFor(items[..0], t, chip, date, s.dataTypes)
      {
        assert s.tables[t] + [] == s.tables[t];
      }
    }
  }

  /** A turn of the loop that does not stop moves on with the state after that entry. */
  lemma WriteReadingsNext(s: DbState, chip: Json, date: Json, items: seq<(string, Json)>)
    requires items != [] && !Unwritable(s, items[0].0)
    ensures WriteReadings(s, chip, date, items) == WriteReadings(Next(s, chip, date, items[0]), chip, date, items[1..])
  {
  }

  /** Only metric keys that name `t` give rows of `t`, and each carries the call's chip and date and
      the `DATA_ID` of `t`. */
  lemma {:induction false} RowsForShape(items: seq<(string, Json)>, t: string, chip: Json, date: Json, dataTypes: map<string, int>)
    ensures RowsFor(items, t, chip, date, dataTypes) != [] ==> IsMetric(t) && t in dataTypes && t in Keys(items)
    ensures forall row :: row in RowsFor(items, t, chip, date, dataTypes) ==>
      row.chip == chip && row.date == date && t in dataTypes && row.dataId == dataTypes[t]
  {
    if items != [] {
      RowsForShape(items[1..], t, chip, date, dataTypes);
      assert Keys(items) == [items[0].0] + Keys(items[1..]);
    }
  }

  /** In a dictionary a metric key occurs once, so it gives exactly one row of its table. */
  lemma {:induction false} RowsForUnique(items: seq<(string, Json)>, j: nat, chip: Json, date: Json, dataTypes: map<string, int>)
    requires UniqueKeys(items) && j < |items|
    requires IsMetric(items[j].0) && items[j].0 in dataTypes
    ensures RowsFor(items, items[j].0, chip, date, dataTypes) == [Reading(chip, dataTypes[items[j].0], items[j].1, date)]
  {
    var t := items[j].0;
    if j == 0 {
      RowsForShape(items[1..], t, chip, date, dataTypes);
      assert t !in Keys(items[1..]);
    } else {
      assert items[1..][j - 1] == items[j];
      RowsForUnique(items[1..], j - 1, chip, date, dataTypes);
    }
  }

  /** `write_data` in closed form when both `CLIENT_ID` and `timestamp` are present: the chip is
      registered, then each table gains the rows of the entries before the first unwritable one. */
  lemma WriteEffect(s: DbState, data: seq<(string, Json)>)
    requires DataManager.ClientId in Keys(data) && DataManager.Timestamp in Keys(data)
    ensures
      var chip, date := Lookup(data, DataManager.ClientId).value, Lookup(data, DataManager.Timestamp).value;
      var n, r := FirstUnwritable(s, data), Write(s, data);
      && r.0.chips == (if chip in s.chips then s.chips else s.chips + [chip])
      && r.0.dataTypes == s.dataTypes
      && r.0.tables.Keys == s.tables.Keys
      && (forall t :: t in s.tables ==> r.0.tables[t] == s.tables[t] + RowsFor(data[..n], t, chip, date, s.dataTypes))
      && r.1 == StopOutcome(s, data, n)
  {
    var chip, date := Lookup(data, DataManager.ClientId).value, Lookup(data, DataManager.Timestamp).value;
    FirstUnwritableSameKeys(s, Register(s, chip), data);
    WriteReadingsClosed(Register(s, chip), chip, date, data);
  }

  /** `write_data` fails exactly when a key is missing or some metric key cannot be written; a missing
      `CLIENT_ID` or `timestamp` raises before anything is written. */
  lemma WriteOutcome(s: DbState, data: seq<(string, Json)>)
    ensures Write(s, data).1 ==
      if DataManager.ClientId !in Keys(data) then Fail(MissingKey(DataManager.ClientId))
      else if DataManager.Timestamp !in Keys(data) then Fail(MissingKey(DataManager.Timestamp))
      else StopOutcome(s, data, FirstUnwritable(s, data))
    ensures Write(s, data).1 == Pass <==>
      && DataManager.ClientId in Keys(data)
      && DataManager.Timestamp in Keys(data)
      && forall i :: 0 <= i < |data| ==> !Unwritable(s, data[i].0)
    ensures DataManager.ClientId !in Keys(data) || DataManager.Timestamp !in Keys(data) ==> Write(s, data).0 == s
  {
    if DataManager.ClientId in Keys(data) && DataManager.Timestamp in Keys(data) {
      WriteEffect(s, data);
    }
  }

  /** After the call the chip is in `iot_chips`, and it is inserted only when it was not there, so a
      table of distinct chips stays distinct. */
  lemma WriteRegistersChip(s: DbState, data: seq<(string, Json)>)
    requires DataManager.ClientId in Keys(data) && DataManager.Timestamp in Keys(data)
    ensures Lookup(data, DataManager.ClientId).value in Write(s, data).0.chips
    ensures Lookup(data, DataManager.ClientId).value in s.chips ==> Write(s, data).0.chips == s.chips
    ensures NoDuplicates(s.chips) ==> NoDuplicates(Write(s, data).0.chips)
  {
    WriteEffect(s, data);
  }

  /** `WriteEffect` for one table. */
  lemma WriteTable(s: DbState, data: seq<(string, Json)>, t: string)
    requires DataManager.ClientId in Keys(data) && DataManager.Timestamp in Keys(data)
    requires t in s.tables
    ensures Write(s, data).0.tables[t] == s.tables[t] +
      RowsFor(data[..FirstUnwritable(s, data)], t, Lookup(data, DataManager.ClientId).value,
              Lookup(data, DataManager.Timestamp).value, s.dataTypes)
  {
    WriteEffect(s, data);
  }

  lemma UniquePrefix(data: seq<(string, Json)>, n: nat)
    requires UniqueKeys(data) && n <= |data|
    ensures UniqueKeys(data[..n])
  {
    forall a, b | 0 <= a < b < n
      ensures data[..n][a].0 != data[..n][b].0
    {
      assert data[..n][a] == data[a] && data[..n][b] == data[b];
    }
  }

  /** A metric key before the stopping point appends exactly one row `(CHIP_ID, DATA_ID, value, DATE)`
      to its table, and it stays there even when a later key makes the call fail. */
  lemma WriteOneRow(s: DbState, data: seq<(string, Json)>, i: nat)
    requires UniqueKeys(data)
    requires DataManager.ClientId in Keys(data) && DataManager.Timestamp in Keys(data)
    requires i < FirstUnwritable(s, data) && IsMetric(data[i].0)
    ensures data[i].0 in s.tables && data[i].0 in s.dataTypes
    ensures Write(s, data).0.tables[data[i].0] == s.tables[data[i].0] +
      [Reading(Lookup(data, DataManager.ClientId).value, s.dataTypes[data[i].0], data[i].1, Lookup(data, DataManager.Timestamp).value)]
  {
    var chip, date := Lookup(data, DataManager.ClientId).value, Lookup(data, DataManager.Timestamp).value;
    var n := FirstUnwritable(s, data);
    var k := data[i].0;
    assert !Unwritable(s, k);
    WriteTable(s, data, k);
    assert data[..n][i] == data[i];
    UniquePrefix(data, n);
    RowsForUnique(data[..n], i, chip, date, s.dataTypes);
  }

  /** In a dictionary the key of entry `i` does not occur among the first `n <= i` entries. */
  lemma KeyNotBefore(data: seq<(string, Json)>, n: nat, i: nat)
    requires UniqueKeys(data) && n <= i < |data|
    ensures data[i].0 !in Keys(data[..n])
  {
    forall k | 0 <= k < n
      ensures Keys(data[..n])[k] != data[i].0
    {
      assert data[..n][k] == data[k];
    }
  }

  /** A metric key at or after the stopping point writes nothing: the loop ended before it. */
  lemma WriteStops(s: DbState, data: seq<(string, Json)>, i: nat)
    requires UniqueKeys(data)
    requires DataManager.ClientId in Keys(data) && DataManager.Timestamp in Keys(data)
    requires FirstUnwritable(s, data) <= i < |data| && data[i].0 in s.tables
    ensures Write(s, data).0.tables[data[i].0] == s.tables[data[i].0]
  {
    var chip, date := Lookup(data, DataManager.ClientId).value, Lookup(data, DataManager.Timestamp).value;
    var n := FirstUnwritable(s, data);
    WriteTable(s, data, data[i].0);
    KeyNotBefore(data, n, i);
    RowsForShape(data[..n], data[i].0, chip, date, s.dataTypes);
  }

  /** One table of `WriteFrame`. */
  lemma TableFrame(s: DbState, data: seq<(string, Json)>, t: string)
    requires DataManager.ClientId in Keys(data) && DataManager.Timestamp in Keys(data)
    requires t in s.tables
    ensures (t !in Keys(data) || !IsMetric(t)) ==> Write(s, data).0.tables[t] == s.tables[t]
    ensures s.tables[t] <= Write(s, data).0.tables[t]
    ensures forall j :: |s.tables[t]| <= j < |Write(s, data).0.tables[t]| ==>
      && Write(s, data).0.tables[t][j].chip == Lookup(data, DataManager.ClientId).value
      && Write(s, data).0.tables[t][j].date == Lookup(data, DataManager.Timestamp).value
      && t in s.dataTypes && Write(s, data).0.tables[t][j].dataId == s.dataTypes[t]
  {
    var chip, date := Lookup(data, DataManager.ClientId).value, Lookup(data, DataManager.Timestamp).value;
    var n, after := FirstUnwritable(s, data), Write(s, data).0.tables[t];
    WriteTable(s, data, t);
    RowsForShape(data[..n], t, chip, date, s.dataTypes);
    var rows := RowsFor(data[..n], t, chip, date, s.dataTypes);
    if t in Keys(data[..n]) {
      var k :| 0 <= k < n && data[..n][k].0 == t;
      assert data[k].0 == t;
    }
    forall j | |s.tables[t]| <= j < |after|
      ensures after[j].chip == chip && after[j].date == date && t in s.dataTypes && after[j].dataId == s.dataTypes[t]
    {
      assert after[j] == rows[j - |s.tables[t]|];
    }
  }

  /** Nothing changes but `iot_chips` and the tables named by metric keys of the message; rows are
      only ever appended, each carrying the message's `CLIENT_ID` and `timestamp` and the table's
      `DATA_ID`. */
  lemma WriteFrame(s: DbState, data: seq<(string, Json)>)
    ensures forall t :: t in s.tables && (t !in Keys(data) || !IsMetric(t)) ==> Write(s, data).0.tables[t] == s.tables[t]
    ensures forall t :: t in s.tables ==> s.tables[t] <= Write(s, data).0.tables[t]
    ensures forall t, j :: t in s.tables && |s.tables[t]| <= j < |Write(s, data).0.tables[t]| ==>
      && Write(s, data).0.tables[t][j].chip == Lookup(data, DataManager.ClientId).value
      && Write(s, data).0.tables[t][j].date == Lookup(data, DataManager.Timestamp).value
      && t in s.dataTypes && Write(s, data).0.tables[t][j].dataId == s.dataTypes[t]
  {
    WriteOutcome(s, data);
    if DataManager.ClientId in Keys(data) && DataManager.Timestamp in Keys(data) {
      forall t | t in s.tables
        ensures (t !in Keys(data) || !IsMetric(t)) ==> Write(s, data).0.tables[t] == s.tables[t]
        ensures s.tables[t] <= Write(s, data).0.tables[t]
        ensures forall j :: |s.tables[t]| <= j < |Write(s, data).0.tables[t]| ==>
          && Write(s, data).0.tables[t][j].chip == Lookup(data, DataManager.ClientId).value
          && Write(s, data).0.tables[t][j].date == Lookup(data, DataManager.Timestamp).value
          && t in s.dataTypes && Write(s, data).0.tables[t][j].dataId == s.dataTypes[t]
      {
        TableFrame(s, data, t);
      }
    }
  }

  /** Writing the same message twice registers the chip once but appends its readings twice: the
      protocol is idempotent on `iot_chips` and not on the metric tables. */
  lemma WriteTwice(s: DbState, data: seq<(string, Json)>)
    requires DataManager.ClientId in Keys(data) && DataManager.Timestamp in Keys(data)
    requires Write(s, data).1 == Pass
    ensures Write(Write(s, data).0, data).0.chips == Write(s, data).0.chips
    ensures Write(Write(s, data).0, data).1 == Pass
    ensures forall t :: t in s.tables ==>
      var rows := RowsFor(data, t, Lookup(data, DataManager.ClientId).value, Lookup(data, DataManager.Timestamp).value, s.dataTypes);
      Write(Write(s, data).0, data).0.tables[t] == s.tables[t] + rows + rows
  {
    var s1 := Write(s, data).0;
    WriteEffect(s, data);
    WriteOutcome(s, data);
    WriteRegistersChip(s1, data);
    WriteEffect(s1, data);
    assert FirstUnwritable(s, data) == |data| && data[..|data|] == data;
    FirstUnwritableSameKeys(s, s1, data);
  }

  /** A normalised message has distinct keys, carries both `CLIENT_ID` (from the payload) and
      `timestamp`, and `write_data` stops at none of its entries when every metric key of the payload
      has a `data_types` row and a table. */
  lemma NormalizedWritable(payload: seq<(string, Json)>, tableNames: seq<string>, now: Dates.DateTime, s: DbState)
    requires UniqueKeys(payload) && Dates.IsClock(now)
    requires DataManager.Normalize(payload, tableNames, now).Success?
    requires DataManager.ClientId in Keys(payload)
    requires forall k :: IsMetric(k) && k in Keys(payload) ==> k in s.dataTypes && k in s.tables
    ensures var data := DataManager.Normalize(payload, tableNames, now).value;
      && UniqueKeys(data)
      && DataManager.ClientId in Keys(data) && DataManager.Timestamp in Keys(data)
      && FirstUnwritable(s, data) == |data|
  {
    var data := DataManager.Normalize(payload, tableNames, now).value;
    DataManager.NormalizeContents(payload, tableNames, now);
    forall i | 0 <= i < |data|
      ensures !Unwritable(s, data[i].0)
    {
      var k := data[i].0;
      assert Keys(data)[i] == k;
      if IsMetric(k) {
        assert k in Keys(payload) + (if DataManager.Timestamp in Keys(payload) then [] else [DataManager.Timestamp]);
        assert k in Keys(payload);
      }
    }
  }

  /** A message `parse_data` accepted, then written: when it names its device and every metric has a
      `data_types` row and a table, the write succeeds and each metric table gains exactly one row
      holding the device id, the rounded value and the receive time. */
  lemma IngestMessage(payload: seq<(string, Json)>, tableNames: seq<string>, now: Dates.DateTime, s: DbState)
    requires UniqueKeys(payload) && Dates.IsClock(now)
    requires DataManager.Normalize(payload, tableNames, now).Success?
    requires DataManager.ClientId in Keys(payload)
    requires forall k :: IsMetric(k) && k in Keys(payload) ==> k in s.dataTypes && k in s.tables
    ensures Write(s, DataManager.Normalize(payload, tableNames, now).value).1 == Pass
    ensures forall k :: IsMetric(k) && k in Keys(payload) ==>
      Write(s, DataManager.Normalize(payload, tableNames, now).value).0.tables[k] == s.tables[k] +
        [Reading(Lookup(payload, DataManager.ClientId).value, s.dataTypes[k], Rounded(Lookup(payload, k).value),
                 JStr(Dates.Format(now)))]
  {
    var data := DataManager.Normalize(payload, tableNames, now).value;
    NormalizedWritable(payload, tableNames, now, s);
    WriteOutcome(s, data);
    forall k | IsMetric(k) && k in Keys(payload)
      ensures Write(s, data).0.tables[k] == s.tables[k] +
        [Reading(Lookup(payload, DataManager.ClientId).value, s.dataTypes[k], Rounded(Lookup(payload, k).value),
                 JStr(Dates.Format(now)))]
    {
      IngestRow(payload, tableNames, now, s, k);
    }
  }

  lemma IngestRow(payload: seq<(string, Json)>, tableNames: seq<string>, now: Dates.DateTime, s: DbState, k: string)
    requires UniqueKeys(payload) && Dates.IsClock(now)
    requires DataManager.Normalize(payload, tableNames, now).Success?
    requires DataManager.ClientId in Keys(payload)
    requires forall k :: IsMetric(k) && k in Keys(payload) ==> k in s.dataTypes && k in s.tables
    requires IsMetric(k) && k in Keys(payload)
    ensures k in s.tables && k in s.dataTypes
    ensures Write(s, DataManager.Normalize(payload, tableNames, now).value).0.tables[k] == s.tables[k] +
      [Reading(Lookup(payload, DataManager.ClientId).value, s.dataTypes[k], Rounded(Lookup(payload, k).value),
               JStr(Dates.Format(now)))]
  {
    var data := DataManager.Normalize(payload, tableNames, now).value;
    NormalizedWritable(payload, tableNames, now, s);
    DataManager.NormalizeContents(payload, tableNames, now);
    assert k in Keys(data);
    var j := IndexOf(data, k);
    LookupAt(data, j);
    WriteOneRow(s, data, j);
  }

  /** The database as the cursor sees it. */
  class Store {
    var chips: seq<Json>
    var dataTypes: map<string, int>
    var tables: map<string, seq<Reading>>

    function State(): DbState
      reads this
    {
      DbState(chips, dataTypes, tables)
    }

    constructor (s: DbState)
      ensures State() == s
    {
      chips, dataTypes, tables := s.chips, s.dataTypes, s.tables;
    }

    /** `write_data(self, data)`: read `CLIENT_ID` and `timestamp`, register the chip, then write
        the readings. */
    method WriteData(data: seq<(string, Json)>) returns (out: Outcome<WriteError>)
      modifies this
      ensures (State(), out) == Write(old(State()), data)
    {
      var chip := Lookup(data, DataManager.ClientId);
      if chip.None? {
        return Fail(MissingKey(DataManager.ClientId));
      }
      var date := Lookup(data, DataManager.Timestamp);
      if date.None? {
        return Fail(MissingKey(DataManager.Timestamp));
      }
      if chip.value !in chips {
        chips := chips + [chip.value];
      }
      out := WriteRows(chip.value, date.value, data);
    }

    /** The loop of `write_data` over the entries of `data`. */
    method WriteRows(chip: Json, date: Json, data: seq<(string, Json)>) returns (out: Outcome<WriteError>)
      modifies this
      ensures (State(), out) == WriteReadings(old(State()), chip, date, data)
    {
      var i := 0;
      assert data[i..] == data;
      while i < |data|
        invariant 0 <= i <= |data|
        invariant WriteReadings(State(), chip, date, data[i..]) == WriteReadings(old(State()), chip, date, data)
      {
        var key, value := data[i].0, data[i].1;
        if IsMetric(key) {
          if key !in dataTypes {
            WriteReadingsStop(State(), chip, date, data, i);
            return Fail(UnknownMeasure(key));
          }
          var dataId := dataTypes[key];
          if key !in tables {
            WriteReadingsStop(State(), chip, date, data, i);
            return Fail(NoSuchTable(key));
          }
          var row := Reading(chip, dataId, value, date);
          WriteReadingsRow(State(), chip, date, data, i);
          ghost var next := Append(State(), key, row);
          tables := tables[key := tables[key] + [row]];
          assert State() == next;
        } else {
          WriteReadingsSkip(State(), chip, date, data, i);
        }
        i := i + 1;
      }
      assert data[i..] == [];
      return Pass;
    }
  }
}
