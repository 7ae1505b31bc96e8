/** Validation and normalisation of an incoming telemetry message: `check_data` and `parse_data` of
    `API/ORUS_API/app/model/data_manager.py`. */
module DataManager {
  import opened Wrappers
  import opened Assoc
  import opened Json
  import Dates

  /** The exceptions `check_data` raises. */
  datatype DataError =
    | InvalidKeys(key: string)     // `KeyError`: a key that is neither `CLIENT_ID` nor a table
    | InvalidValues(key: string)   // `ValueError`: a table key whose value is not a number

  type Entry = (string, Json)

  const ClientId := "CLIENT_ID"
  const Timestamp := "timestamp"

  /** An entry `check_data` lets through: the device id, or a table name holding a number.
      `tables` holds the names returned by `SHOW TABLES` (each row is a one-tuple `(name,)`). */
  predicate Acceptable(e: Entry, tables: seq<string>)
  {
    e.0 == ClientId || (e.0 in tables && IsNumber(e.1))
  }

  /** The exception for an entry `check_data` rejects. Since `db_tables` holds tuples, `key not in
      db_tables` is true of every string key, so a key that is not a table always raises `KeyError`. */
  function Rejection(e: Entry, tables: seq<string>): (err: DataError)
    requires !Acceptable(e, tables)
    ensures err.InvalidKeys? <==> e.0 !in tables
    ensures err.key == e.0 && e.0 != ClientId
  {
    if e.0 in tables then InvalidValues(e.0) else InvalidKeys(e.0)
  }

  /** What `check_data` stores back for an accepted entry: metric values become `round(float(v), 3)`,
      the device id is left alone. */
  function RoundEntry(e: Entry, tables: seq<string>): (r: Entry)
    requires Acceptable(e, tables)
    ensures r.0 == e.0
    ensures e.0 == ClientId ==> r == e
    ensures e.0 != ClientId ==> r.1 == Rounded(e.1)
  {
    if e.0 == ClientId then e else (e.0, Rounded(e.1))
  }

  /** Index of the first entry `check_data` rejects, or the length when there is none. */
  function FirstInvalid(items: seq<Entry>, tables: seq<string>): (n: nat)
    ensures n <= |items|
    ensures forall j :: 0 <= j < n ==> Acceptable(items[j], tables)
    ensures n < |items| ==> !Acceptable(items[n], tables)
    decreases |items|
  {
    if items == [] || !Acceptable(items[0], tables) then 0
    else 1 + FirstInvalid(items[1..], tables)
  }

  /** Every entry of an accepted prefix, rewritten. */
  function RoundAll(items: seq<Entry>, tables: seq<string>): (r: seq<Entry>)
    requires forall j :: 0 <= j < |items| ==> Acceptable(items[j], tables)
  {
    seq(|items|, j requires 0 <= j < |items| && Acceptable(items[j], tables) => RoundEntry(items[j], tables))
  }

  /** The dictionary after `check_data`: the loop has rewritten the entries before the first rejected
      one and stopped there. */
  function CheckedState(items: seq<Entry>, tables: seq<string>): seq<Entry>
  {
    var n := FirstInvalid(items, tables);
    RoundAll(items[..n], tables) + items[n..]
  }

  /** Whether `check_data` returns or raises, and what. */
  function CheckVerdict(items: seq<Entry>, tables: seq<string>): (r: Outcome<DataError>)
    ensures r.Pass? <==> forall j :: 0 <= j < |items| ==> Acceptable(items[j], tables)
    ensures r.Fail? ==>
      exists j :: 0 <= j < |items| && !Acceptable(items[j], tables) &&
        r.error == Rejection(items[j], tables) && forall k :: 0 <= k < j ==> Acceptable(items[k], tables)
  {
    var n := FirstInvalid(items, tables);
    if n == |items| then Pass else Fail(Rejection(items[n], tables))
  }

  /** One more accepted entry rewritten. */
  lemma RoundedStep(items: seq<Entry>, current: seq<Entry>, i: nat, tables: seq<string>)
    requires i < FirstInvalid(items, tables)
    requires current == RoundAll(items[..i], tables) + items[i..]
    ensures current[i := RoundEntry(items[i], tables)] == RoundAll(items[..i + 1], tables) + items[i + 1..]
  {
    var next := current[i := RoundEntry(items[i], tables)];
    var want := RoundAll(items[..i + 1], tables) + items[i + 1..];
    assert |next| == |want|;
    forall j | 0 <= j < |next|
      ensures next[j] == want[j]
    {
      if j < i {
        assert next[j] == RoundAll(items[..i], tables)[j] == RoundEntry(items[j], tables);
      } else if j > i {
        assert next[j] == items[j];
      }
    }
  }

  /** `check_data(db_tables, data_json)`: walks the dictionary in order, rounding metric values in
      place, and raises at the first entry it rejects. */
  method CheckData(tables: seq<string>, d: Dict<Json>) returns (out: Outcome<DataError>)
    requires d.Valid()
    modifies d
    ensures d.Valid()
    ensures d.items == CheckedState(old(d.items), tables)
    ensures out == CheckVerdict(old(d.items), tables)
  {
    ghost var items := d.items;
    ghost var n := FirstInvalid(items, tables);
    var i := 0;
    while i < |d.items|
      invariant d.Valid() && 0 <= i <= |d.items| == |items|
      invariant i <= n
      invariant d.items == RoundAll(items[..i], tables) + items[i..]
    {
      var (key, value) := d.items[i];
      assert (key, value) == items[i];
      if key != ClientId && key in tables {
        if IsNumber(value) {
          AssignAt(d.items, i, Rounded(value));
          RoundedStep(items, d.items, i, tables);
          d.Set(key, Rounded(value));
          i := i + 1;
          continue;
        } else {
          assert n == i;
          return Fail(InvalidValues(key));
        }
      } else if key != ClientId {
        assert n == i;
        return Fail(InvalidKeys(key));
      }
      RoundedStep(items, d.items, i, tables);
      assert d.items[i := RoundEntry(items[i], tables)] == d.items;
      i := i + 1;
    }
    assert n == i;
    return Pass;
  }

  lemma CheckedAll(items: seq<Entry>, tables: seq<string>)
    requires CheckVerdict(items, tables).Pass?
    ensures FirstInvalid(items, tables) == |items|
    ensures CheckedState(items, tables) == RoundAll(items, tables)
  {
    assert items[..|items|] == items && items[|items|..] == [];
  }

  /** The message `parse_data` returns, given the parsed payload and the receive time. */
  function Normalize(payload: seq<Entry>, tables: seq<string>, now: Dates.DateTime): (r: Result<seq<Entry>, DataError>)
    requires Dates.IsClock(now)
    ensures r.Success? <==> forall i :: 0 <= i < |payload| ==> Acceptable(payload[i], tables)
    ensures r.Failure? ==>
      exists i :: 0 <= i < |payload| && !Acceptable(payload[i], tables) &&
        r.error == Rejection(payload[i], tables) && forall j :: 0 <= j < i ==> Acceptable(payload[j], tables)
  {
    var n := FirstInvalid(payload, tables);
    if n == |payload| then Success(Assign(RoundAll(payload, tables), Timestamp, JStr(Dates.Format(now))))
    else Failure(Rejection(payload[n], tables))
  }

  /** `parse_data(data_json, db_tables)` after `json.loads`: checks the payload, stamps it with the
      formatted receive time and returns a copy; an exception from `check_data` propagates. */
  method ParseData(payload: seq<Entry>, tables: seq<string>, now: Dates.DateTime) returns (r: Result<seq<Entry>, DataError>)
    requires UniqueKeys(payload) && Dates.IsClock(now)
    ensures r == Normalize(payload, tables, now)
  {
    var d := new Dict(payload);
    var checked := CheckData(tables, d);
    if checked.Fail? {
      return Failure(checked.error);
    }
    CheckedAll(payload, tables);
    var stamp := JStr(Dates.Format(now));
    d.Set(Timestamp, stamp);
    return Success(d.items);
  }

  // ---- what `check_data` and `parse_data` guarantee ---------------------------------------------

  /** `check_data` never adds or removes a key and never changes the value of `CLIENT_ID`, whether it
      returns or raises; every value it did change became `round(float(v), 3)` of a number. */
  lemma CheckedStateAt(items: seq<Entry>, tables: seq<string>, i: nat)
    requires i < |items|
    ensures var after := CheckedState(items, tables);
      |after| == |items| && after[i].0 == items[i].0 &&
      (after[i] == items[i] || (i < FirstInvalid(items, tables) && after[i] == RoundEntry(items[i], tables)))
  {
    var n := FirstInvalid(items, tables);
    var after := CheckedState(items, tables);
    if i < n {
      assert after[i] == RoundAll(items[..n], tables)[i];
    } else {
      assert after[i] == items[n..][i - n];
    }
  }

  lemma CheckDataKeepsShape(items: seq<Entry>, tables: seq<string>)
    requires UniqueKeys(items)
    ensures var after := CheckedState(items, tables);
      && Keys(after) == Keys(items)
      && UniqueKeys(after)
      && Lookup(after, ClientId) == Lookup(items, ClientId)
      && forall i :: 0 <= i < |items| && after[i] != items[i] ==>
           items[i].0 != ClientId && IsNumber(items[i].1) && after[i].1 == Rounded(items[i].1)
  {
    var after := CheckedState(items, tables);
    forall i | 0 <= i < |items|
      ensures after[i].0 == items[i].0
      ensures after[i] != items[i] ==> items[i].0 != ClientId && IsNumber(items[i].1) && after[i].1 == Rounded(items[i].1)
    {
      CheckedStateAt(items, tables, i);
    }
    assert |after| == |items|;
    assert Keys(after) == Keys(items);
    if ClientId in Keys(items) {
      var c := IndexOf(items, ClientId);
      CheckedStateAt(items, tables, c);
      LookupAt(items, c);
      LookupAt(after, c);
    }
  }

  /** A fully accepted payload, rewritten: the same keys, `CLIENT_ID` unchanged, and every other key a
      table whose number became `round(float(v), 3)`. */
  lemma RoundAllContents(payload: seq<Entry>, tables: seq<string>)
    requires UniqueKeys(payload)
    requires forall j :: 0 <= j < |payload| ==> Acceptable(payload[j], tables)
    ensures var rounded := RoundAll(payload, tables);
      && UniqueKeys(rounded)
      && Keys(rounded) == Keys(payload)
      && Lookup(rounded, ClientId) == Lookup(payload, ClientId)
      && forall k :: k != ClientId && k in Keys(payload) ==>
           var v := Lookup(payload, k).value;
           k in tables && IsNumber(v) && Lookup(rounded, k) == Some(Rounded(v))
  {
    CheckedAll(payload, tables);
    CheckDataKeepsShape(payload, tables);
    forall k | k != ClientId && k in Keys(payload)
      ensures var v := Lookup(payload, k).value;
        k in tables && IsNumber(v) && Lookup(RoundAll(payload, tables), k) == Some(Rounded(v))
    {
      RoundedAt(payload, tables, k);
    }
  }

  lemma RoundedAt(payload: seq<Entry>, tables: seq<string>, k: string)
    requires UniqueKeys(payload)
    requires forall j :: 0 <= j < |payload| ==> Acceptable(payload[j], tables)
    requires k != ClientId && k in Keys(payload)
    ensures var v := Lookup(payload, k).value;
      k in tables && IsNumber(v) && Lookup(RoundAll(payload, tables), k) == Some(Rounded(v))
  {
    var rounded := RoundAll(payload, tables);
    assert UniqueKeys(rounded) by {
      assert forall j :: 0 <= j < |payload| ==> rounded[j].0 == payload[j].0;
    }
    var i := IndexOf(payload, k);
    LookupAt(payload, i);
    assert rounded[i] == RoundEntry(payload[i], tables);
    LookupAt(rounded, i);
  }

  /** A successful `parse_data` returns every key of the payload, plus `timestamp` when the payload had
      none: `CLIENT_ID` keeps its value, `timestamp` holds the formatted receive time, and every other
      key is a table whose number was replaced by `round(float(v), 3)`. */
  lemma NormalizeContents(payload: seq<Entry>, tables: seq<string>, now: Dates.DateTime)
    requires UniqueKeys(payload) && Dates.IsClock(now)
    requires CheckVerdict(payload, tables).Pass?
    ensures Normalize(payload, tables, now).Success?
    ensures var r := Normalize(payload, tables, now).value;
      && UniqueKeys(r)
      && Keys(r) == Keys(payload) + (if Timestamp in Keys(payload) then [] else [Timestamp])
      && Lookup(r, Timestamp) == Some(JStr(Dates.Format(now)))
      && Lookup(r, ClientId) == Lookup(payload, ClientId)
      && forall k :: k != ClientId && k != Timestamp && k in Keys(payload) ==>
           var v := Lookup(payload, k).value;
           k in tables && IsNumber(v) && Lookup(r, k) == Some(Rounded(v))
  {
    NormalizeAccepted(payload, tables, now);
    RoundAllContents(payload, tables);
    AssignProperties(RoundAll(payload, tables), Timestamp, JStr(Dates.Format(now)));
  }

  /** An accepted payload is rewritten and then stamped. */
  lemma NormalizeAccepted(payload: seq<Entry>, tables: seq<string>, now: Dates.DateTime)
    requires Dates.IsClock(now)
    requires CheckVerdict(payload, tables).Pass?
    ensures forall i :: 0 <= i < |payload| ==> Acceptable(payload[i], tables)
    ensures Normalize(payload, tables, now) == Success(Assign(RoundAll(payload, tables), Timestamp, JStr(Dates.Format(now))))
  {
    CheckedAll(payload, tables);
  }

  /** The payload `{"CLIENT_ID": "dev1", "TEMPERATURE": 23.4567}` with the single table `TEMPERATURE`
      becomes `{"CLIENT_ID": "dev1", "TEMPERATURE": 23.457, "timestamp": <now>}`. */
  lemma NormalizeExample(now: Dates.DateTime)
    requires Dates.IsClock(now)
    ensures Normalize([(ClientId, JStr("dev1")), ("TEMPERATURE", JFloat(23.4567))], ["TEMPERATURE"], now) ==
      Success([(ClientId, JStr("dev1")), ("TEMPERATURE", JFloat(23.457)), (Timestamp, JStr(Dates.Format(now)))])
  {
    var payload := [(ClientId, JStr("dev1")), ("TEMPERATURE", JFloat(23.4567))];
    assert RoundHalfEven(23456.7) == 23457;
    assert Round3(23.4567) == 23.457;
    assert Acceptable(payload[0], ["TEMPERATURE"]) && Acceptable(payload[1], ["TEMPERATURE"]);
    assert FirstInvalid(payload, ["TEMPERATURE"]) == 2;
    var rounded := RoundAll(payload, ["TEMPERATURE"]);
    assert rounded == [(ClientId, JStr("dev1")), ("TEMPERATURE", JFloat(23.457))];
    assert Keys(rounded) == [ClientId, "TEMPERATURE"];
    assert Timestamp !in Keys(rounded);
    assert Assign(rounded, Timestamp, JStr(Dates.Format(now))) == rounded + [(Timestamp, JStr(Dates.Format(now)))];
    assert Normalize(payload, ["TEMPERATURE"], now) == Success(rounded + [(Timestamp, JStr(Dates.Format(now)))]);
    assert rounded + [(Timestamp, JStr(Dates.Format(now)))] ==
      [(ClientId, JStr("dev1")), ("TEMPERATURE", JFloat(23.457)), (Timestamp, JStr(Dates.Format(now)))];
  }
}
