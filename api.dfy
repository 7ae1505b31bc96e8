/** The pure parts of `API/app/API.py`: `format_data`, the choice of the read query in the request
    handler, and the allow-list string `set_db_tables` stores for `check`. */
module Api {
  import opened Wrappers
  import Text
  import Dates
  import ArgsChecker

  // ---- format_data ------------------------------------------------------------------------

  /** The only exception `format_data` can raise: an index past the end of a tuple or list. */
  datatype FormatError = IndexError

  /** `[column_name[0] for column_name in column_names]`; `None` when a descriptor is empty. */
  function ColumnNames<K>(columns: seq<seq<K>>): (r: Option<seq<K>>)
    ensures r.Some? <==> forall i :: 0 <= i < |columns| ==> columns[i] != []
    ensures r.Some? ==> |r.value| == |columns| && forall i :: 0 <= i < |columns| ==> r.value[i] == columns[i][0]
  {
    if columns == [] then Some([])
    else if columns[0] == [] then None
    else
      match ColumnNames(columns[1..])
      case None => None
      case Some(rest) => Some([columns[0][0]] + rest)
  }

  /** `{column_names[i]: row[i] for i in range(len(row))}`, inserting in index order. */
  function Record<K(==), V>(names: seq<K>, row: seq<V>): (r: map<K, V>)
    requires |row| <= |names|
    ensures |r.Keys| <= |row|
  {
    if row == [] then map[]
    else
      var prefix := Record(names, row[..|row| - 1]);
      assert prefix[names[|row| - 1] := row[|row| - 1]].Keys == prefix.Keys + {names[|row| - 1]};
      prefix[names[|row| - 1] := row[|row| - 1]]
  }

  /** The keys of a record are the first `|row|` names, and a name that occurs more than once keeps
      the value of its last position. */
  lemma {:induction false} RecordEntries<K, V>(names: seq<K>, row: seq<V>)
    requires |row| <= |names|
    ensures Record(names, row).Keys == set j | 0 <= j < |row| :: names[j]
    ensures forall j :: 0 <= j < |row| && (forall k :: j < k < |row| ==> names[k] != names[j]) ==>
      Record(names, row)[names[j]] == row[j]
  {
    if row != [] {
      var prefix := row[..|row| - 1];
      RecordEntries(names, prefix);
      assert forall j :: 0 <= j < |prefix| ==> prefix[j] == row[j];
    }
  }

  /** `format_data(column_names, data)`: one record per row, in order; it raises when a column
      descriptor is empty or a row is longer than the list of columns. */
  method FormatData<K(==), V>(columns: seq<seq<K>>, data: seq<seq<V>>) returns (r: Result<seq<map<K, V>>, FormatError>)
    ensures r.Success? <==>
      && (forall i :: 0 <= i < |columns| ==> columns[i] != [])
      && (forall i :: 0 <= i < |data| ==> |data[i]| <= |columns|)
    ensures r.Success? ==>
      && |r.value| == |data|
      && forall i :: 0 <= i < |data| ==> r.value[i] == Record(ColumnNames(columns).value, data[i])
  {
    var names := ColumnNames(columns);
    if names.None? {
      return Failure(IndexError);
    }
    var result: seq<map<K, V>> := [];
    var i := 0;
    while i < |data|
      invariant 0 <= i <= |data|
      invariant forall k :: 0 <= k < i ==> |data[k]| <= |columns|
      invariant |result| == i
      invariant forall k :: 0 <= k < i ==> result[k] == Record(names.value, data[k])
    {
      if |data[i]| > |names.value| {
        return Failure(IndexError);
      }
      result := result + [Record(names.value, data[i])];
      i := i + 1;
    }
    return Success(result);
  }

  /** With distinct column names, record `i` maps the name of column `j` to `data[i][j]` for every
      `j < |data[i]|`, and to nothing else. */
  lemma FormatDataRecords<K, V>(columns: seq<seq<K>>, data: seq<seq<V>>, i: nat, j: nat)
    requires forall c :: 0 <= c < |columns| ==> columns[c] != []
    requires forall a, b :: 0 <= a < b < |columns| ==> columns[a][0] != columns[b][0]
    requires i < |data| && |data[i]| <= |columns| && j < |data[i]|
    ensures columns[j][0] in Record(ColumnNames(columns).value, data[i])
    ensures Record(ColumnNames(columns).value, data[i])[columns[j][0]] == data[i][j]
    ensures |Record(ColumnNames(columns).value, data[i]).Keys| == |data[i]|
  {
    var names := ColumnNames(columns).value;
    RecordEntries(names, data[i]);
    RecordSize(names, data[i]);
  }

  /** A record over distinct names has one key per value. */
  lemma {:induction false} RecordSize<K, V>(names: seq<K>, row: seq<V>)
    requires |row| <= |names|
    requires forall a, b :: 0 <= a < b < |names| ==> names[a] != names[b]
    ensures |Record(names, row).Keys| == |row|
  {
    if row != [] {
      var prefix := row[..|row| - 1];
      RecordSize(names, prefix);
      RecordEntries(names, prefix);
      var last := names[|row| - 1];
      assert last !in Record(names, prefix).Keys;
      assert Record(names, row).Keys == Record(names, prefix).Keys + {last};
    }
  }

  // ---- the read query ---------------------------------------------------------------------

  /** How a value is printed in an f-string: `None` as the text `None`. */
  function Show(v: Option<string>): string
  {
    if v.Some? then v.value else "None"
  }

  // The fixed text of the read queries around the table name and the two bounds.
  const Select := "SELECT * FROM "
  const Lower := " WHERE DATE >= "
  const Upper := " AND DATE <= "

  /** The query the request handler runs for the checked arguments: the whole table when both dates
      are missing, `DATE >= start` when only the end date is missing, and a closed interval otherwise,
      even when only the start date is missing. */
  function SelectQuery(table: string, start: Option<string>, end: Option<string>): (r: string)
    ensures Text.StartsWith(r, Select + table)
    ensures r == Select + table <==> start.None? && end.None?
  {
    if start.None? && end.None? then Select + table
    else if end.None? then Select + table + Lower + "'" + Show(start) + "'"
    else Select + table + Lower + "'" + Show(start) + "'" + Upper + "'" + Show(end) + "'"
  }

  /** The fixed text holds neither a quote nor a `;`. */
  lemma FixedText()
    ensures '\'' !in Select && '\'' !in Lower && '\'' !in Upper
    ensures ';' !in Select && ';' !in Lower && ';' !in Upper
  {
    forall i | 0 <= i < |Select| ensures Select[i] != '\'' && Select[i] != ';' { }
    forall i | 0 <= i < |Lower| ensures Lower[i] != '\'' && Lower[i] != ';' { }
    forall i | 0 <= i < |Upper| ensures Upper[i] != '\'' && Upper[i] != ';' { }
  }

  /** Position of the first `c` in `s`. */
  function Find(s: string, c: char): (i: nat)
    requires c in s
    ensures i < |s| && s[i] == c && c !in s[..i]
  {
    if s[0] == c then 0
    else
      var i := 1 + Find(s[1..], c);
      assert s[..i] == [s[0]] + s[1..][..i - 1];
      i
  }

  /** The single-quoted string literals of an SQL text, in order (an unterminated quote opens none). */
  function Literals(s: string): seq<string>
    decreases |s|
  {
    if '\'' !in s then []
    else
      var rest := s[Find(s, '\'') + 1..];
      if '\'' !in rest then []
      else
        var j := Find(rest, '\'');
        [rest[..j]] + Literals(rest[j + 1..])
  }

  lemma FindAt(s: string, c: char, k: nat)
    requires k < |s| && s[k] == c && c !in s[..k]
    ensures Find(s, c) == k
  {
  }

  /** The first quote after a quote-free prefix is the one that follows it. */
  lemma FindFirst(p: string, t: string)
    requires '\'' !in p
    ensures Find(p + "'" + t, '\'') == |p|
  {
    var s := p + "'" + t;
    assert s[..|p|] == p;
    FindAt(s, '\'', |p|);
  }

  /** A quote-free prefix, then a quoted quote-free value: the value is the first literal. */
  lemma LiteralsStep(p: string, v: string, t: string)
    requires '\'' !in p && '\'' !in v
    ensures Literals(p + "'" + (v + "'" + t)) == [v] + Literals(t)
  {
    var rest := v + "'" + t;
    FindFirst(p, rest);
    assert (p + "'" + rest)[|p| + 1..] == rest;
    FindFirst(v, t);
    assert rest[..|v|] == v && rest[|v| + 1..] == t;
  }

  lemma LiteralsSince(head: string, lower: string)
    requires '\'' !in head && '\'' !in lower
    ensures Literals(head + "'" + lower + "'") == [lower]
  {
    assert head + "'" + lower + "'" == head + "'" + (lower + "'" + "");
    LiteralsStep(head, lower, "");
  }

  lemma LiteralsBetween(head: string, lower: string, upper: string)
    requires '\'' !in head && '\'' !in lower && '\'' !in upper && '\'' !in Upper
    ensures Literals(head + "'" + lower + "'" + Upper + "'" + upper + "'") == [lower, upper]
  {
    var tail := Upper + "'" + upper + "'";
    calc {
      Literals(head + "'" + lower + "'" + Upper + "'" + upper + "'");
      { assert head + "'" + lower + "'" + Upper + "'" + upper + "'" == head + "'" + (lower + "'" + tail); }
      Literals(head + "'" + (lower + "'" + tail));
      { LiteralsStep(head, lower, tail); }
      [lower] + Literals(tail);
      { LiteralsSince(Upper, upper); }
      [lower] + [upper];
    }
  }

  /** When the table name and the dates hold no quote, the string literals of the read query are
      exactly the bounds it compares `DATE` with. */
  lemma QueryLiterals(table: string, start: Option<string>, end: Option<string>)
    requires '\'' !in table && '\'' !in Show(start) && '\'' !in Show(end)
    ensures Literals(SelectQuery(table, start, end)) == Bounds(start, end)
  {
    FixedText();
    var head := Select + table + Lower;
    if start.None? && end.None? {
      assert '\'' !in Select + table;
    } else if end.None? {
      LiteralsSince(head, start.value);
    } else {
      LiteralsBetween(head, Show(start), end.value);
    }
  }

  /** The read query holds a `;` only if one of its arguments does. */
  lemma QuerySemicolon(table: string, start: Option<string>, end: Option<string>)
    requires ';' !in table && ';' !in Show(start) && ';' !in Show(end)
    ensures ';' !in SelectQuery(table, start, end)
  {
    FixedText();
  }

  /** The arguments of one read request as the handler collects them, before `check`: `table_id`,
      `start_date` and `end_date`, in that order. */
  predicate IsRequest(items: seq<ArgsChecker.Arg>)
  {
    |items| == 3 && items[0].0 == ArgsChecker.TableId && items[1].0 == ArgsChecker.StartDate &&
    items[2].0 == ArgsChecker.EndDate
  }

  /** A value `sanitizeSQL` accepts holds neither a quote nor a `;`. */
  lemma SanitizedChars(v: string)
    requires ArgsChecker.SanitizeSQL(v).Pass?
    ensures '\'' !in v && ';' !in v
  {
    ArgsChecker.SanitizeSQLRejects(v);
    Text.ContainsChar(v, '\'');
    Text.ContainsChar(v, ';');
  }

  /** The formatted clock holds neither a quote nor a `;`. */
  lemma FormatChars(now: Dates.DateTime)
    requires Dates.IsClock(now)
    ensures '\'' !in Dates.Format(now) && ';' !in Dates.Format(now)
  {
  }

  /** What `check` lets through in entry `i`: no quote and no `;`, and a present date parses and is
      not later than `now`. */
  lemma CheckedArg(items: seq<ArgsChecker.Arg>, env: Option<string>, now: Dates.DateTime, i: nat)
    requires Dates.IsClock(now)
    requires ArgsChecker.CheckSpec(items, env, now).1.Pass?
    requires i < |items| && ArgsChecker.CheckSpec(items, env, now).0[i].1.Some?
    ensures env.Some?
    ensures
      var v := ArgsChecker.CheckSpec(items, env, now).0[i].1.value;
      && '\'' !in v && ';' !in v
      && (items[i].0 == ArgsChecker.StartDate || items[i].0 == ArgsChecker.EndDate ==>
            Dates.ParseDate(v).Some? && !Dates.Before(now, Dates.ParseDate(v).value))
      && (items[i].0 == ArgsChecker.TableId ==> v in Text.Split(env.value))
  {
    var tables := Text.Split(env.value);
    ArgsChecker.CheckArgsOutcome(items, tables, now);
    var out := ArgsChecker.CheckSpec(items, env, now).0;
    var r := ArgsChecker.CheckArg(items[i].0, items[i].1, tables, now);
    assert r == Success(out[i].1);
    ArgsChecker.CheckArgCases(items[i].0, items[i].1, tables, now);
    if out[i].1.value == items[i].1.value {
      SanitizedChars(items[i].1.value);
    } else {
      FormatChars(now);
    }
  }

  /** A literal of a checked query: a date not later than `now`, or the text `None`. */
  ghost predicate CheckedLiteral(lit: string, now: Dates.DateTime)
  {
    lit == "None" || (Dates.ParseDate(lit).Some? && !Dates.Before(now, Dates.ParseDate(lit).value))
  }

  /** The bounds a query compares `DATE` with, as `QueryLiterals` lists them. */
  function Bounds(start: Option<string>, end: Option<string>): seq<string>
  {
    if start.None? && end.None? then []
    else if end.None? then [start.value]
    else [Show(start), end.value]
  }

  lemma BoundsChecked(start: Option<string>, end: Option<string>, now: Dates.DateTime)
    requires start.Some? ==> CheckedLiteral(start.value, now)
    requires end.Some? ==> CheckedLiteral(end.value, now)
    ensures forall lit :: lit in Bounds(start, end) ==> CheckedLiteral(lit, now)
  {
  }

  /** Quote-free arguments whose dates are checked give a query whose literals are checked. */
  lemma QueryLiteralsChecked(table: string, start: Option<string>, end: Option<string>, now: Dates.DateTime)
    requires '\'' !in table && '\'' !in Show(start) && '\'' !in Show(end)
    requires start.Some? ==> CheckedLiteral(start.value, now)
    requires end.Some? ==> CheckedLiteral(end.value, now)
    ensures forall lit :: lit in Literals(SelectQuery(table, start, end)) ==> CheckedLiteral(lit, now)
  {
    QueryLiterals(table, start, end);
    BoundsChecked(start, end, now);
  }

  /** From request to query: when `check` accepts the arguments, the query reads a table of the
      allow-list, holds no `;`, and each of its string literals is a date not later than `now` or the
      text `None` (the lower bound when only the end date was given). */
  lemma CheckedQuery(items: seq<ArgsChecker.Arg>, env: Option<string>, now: Dates.DateTime)
    requires Dates.IsClock(now) && IsRequest(items)
    requires ArgsChecker.CheckSpec(items, env, now).1.Pass?
    ensures
      var out := ArgsChecker.CheckSpec(items, env, now).0;
      && |out| == 3
      && out[0].1.Some? && env.Some? && out[0].1.value in Text.Split(env.value)
      && var q := SelectQuery(out[0].1.value, out[1].1, out[2].1);
      && ';' !in q
      && forall lit :: lit in Literals(q) ==> CheckedLiteral(lit, now)
  {
    var out := ArgsChecker.CheckSpec(items, env, now).0;
    CheckedTable(items, env, now);
    CheckedArg(items, env, now, 0);
    if out[1].1.Some? {
      CheckedArg(items, env, now, 1);
    }
    if out[2].1.Some? {
      CheckedArg(items, env, now, 2);
    }
    CheckedBoundsQuery(out[0].1.value, out[1].1, out[2].1, now);
  }

  /** A table name and bounds free of quotes and `;`, with checked dates, make a query free of `;`
      whose literals are checked. */
  lemma CheckedBoundsQuery(table: string, start: Option<string>, end: Option<string>, now: Dates.DateTime)
    requires '\'' !in table && ';' !in table
    requires start.Some? ==> '\'' !in start.value && ';' !in start.value && CheckedLiteral(start.value, now)
    requires end.Some? ==> '\'' !in end.value && ';' !in end.value && CheckedLiteral(end.value, now)
    ensures ';' !in SelectQuery(table, start, end)
    ensures forall lit :: lit in Literals(SelectQuery(table, start, end)) ==> CheckedLiteral(lit, now)
  {
    assert '\'' !in "None" && ';' !in "None";
    QueryLiteralsChecked(table, start, end, now);
    QuerySemicolon(table, start, end);
  }

  /** `check` lets a request through only with a `table_id`. */
  lemma CheckedTable(items: seq<ArgsChecker.Arg>, env: Option<string>, now: Dates.DateTime)
    requires Dates.IsClock(now)
    requires ArgsChecker.CheckSpec(items, env, now).1.Pass?
    requires |items| > 0 && items[0].0 == ArgsChecker.TableId
    ensures ArgsChecker.CheckSpec(items, env, now).0[0].1.Some?
  {
    ArgsChecker.CheckArgsOutcome(items, Text.Split(env.value), now);
  }

  // ---- the allow-list ---------------------------------------------------------------------

  /** Lines 210-215 of `set_db_tables` over the rows of `SHOW TABLES`: each table's first field
      followed by a space, then the whole string stripped. `None` when `table[0]` raises, which the
      function catches, so that `API_DB_TABLES` is not set. */
  method SetDbTables(rows: seq<seq<string>>) returns (r: Option<string>)
    ensures r.Some? <==> forall i :: 0 <= i < |rows| ==> rows[i] != []
    ensures r.Some? ==> r.value == Text.Strip(Text.JoinTrailing(ColumnNames(rows).value))
    ensures r.Some? ==> r.value == [] || (!Text.IsSpace(r.value[0]) && !Text.IsSpace(r.value[|r.value| - 1]))
  {
    var acc := "";
    var i := 0;
    while i < |rows|
      invariant 0 <= i <= |rows|
      invariant forall k :: 0 <= k < i ==> rows[k] != []
      invariant acc == Text.JoinTrailing(ColumnNames(rows[..i]).value)
    {
      if rows[i] == [] {
        return None;
      }
      assert ColumnNames(rows[..i + 1]).value == ColumnNames(rows[..i]).value + [rows[i][0]];
      Text.JoinTrailingSnoc(ColumnNames(rows[..i]).value, rows[i][0]);
      acc := acc + rows[i][0] + " ";
      i := i + 1;
    }
    assert rows[..i] == rows;
    Text.StripEnds(acc);
    return Some(Text.Strip(acc));
  }

  /** With table names free of whitespace, the stored string is the names joined by single spaces,
      and splitting it in `check` gives the names back, so a `table_id` passes the allow-list exactly
      when it names one of the tables. */
  lemma AllowListRoundTrip(rows: seq<seq<string>>, table: string, now: Dates.DateTime)
    requires forall i :: 0 <= i < |rows| ==> rows[i] != [] && Text.IsWord(rows[i][0])
    requires Dates.IsClock(now)
    ensures
      var names := ColumnNames(rows).value;
      var stored := Text.Strip(Text.JoinTrailing(names));
      && stored == Text.Join(names)
      && ArgsChecker.AllowList(Some(stored)) == names
      && (ArgsChecker.CheckArg(ArgsChecker.TableId, Some(table), ArgsChecker.AllowList(Some(stored)), now).Success? <==>
            table in names && ArgsChecker.SanitizeSQL(table).Pass?)
  {
    var names := ColumnNames(rows).value;
    Text.StripJoinTrailing(names);
    Text.SplitJoin(names);
    ArgsChecker.CheckArgCases(ArgsChecker.TableId, Some(table), names, now);
  }
}
