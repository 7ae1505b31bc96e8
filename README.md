# ORUS-API telemetry core in Dafny

This project models the ingestion and query path of ORUS-API, a service that stores readings from IoT
devices in MySQL and serves them over HTTP. It covers four pieces:

- **Argument checking** (`API/app/utils/args_checker.py`, module `ArgsChecker`). `check` walks the
  request arguments in order. It sends every present value through `sanitizeSQL`, which rejects
  `;`, `--`, `/*`, `*/`, `'`, `"` and `#`. It then requires `table_id` to be one of the
  whitespace-separated names in `API_DB_TABLES`, and passes each date through `check_date`.
  `check_date` parses `%Y-%m-%d %H:%M:%S` and clamps a date at or after now to the formatted clock.
  The dictionary is a class (`Assoc.Dict`) that `check` rewrites in place.
- **Message validation** (`API/ORUS_API/app/model/data_manager.py`, module `DataManager`).
  `check_data` walks the parsed payload. It rounds each metric value to three decimals in place and
  raises at the first entry whose key is not a table (`KeyError`) or whose value is not a number
  (`ValueError`). `parse_data` then adds the `timestamp` key.
- **The write protocol** (`write_data` in `API/app/connections/db_connections.py`, module
  `DbConnections`). It works over an in-memory store, `DbConnections.Store`, with the tables
  `iot_chips` and `data_types` and one table per metric. The chip is registered if absent. Then each
  metric key gets its `DATA_ID` looked up and appends one row to the table of that name, and the
  loop stops at the first failure without rolling back.
- **Result shaping, query choice and the allow-list** (`API/app/API.py`, module `Api`):
  - `format_data` zips column names with row values;
  - the request handler picks one of three `SELECT` queries, depending on which dates are present;
  - `set_db_tables` builds the allow-list string that `check` later splits.

Shared building blocks:
- `Text` holds `str.split()`, `str.strip()` and substring search.
- `Dates` holds `strptime`/`strftime` for the one format used.
- `Json` holds parsed JSON values and `round(float(v), 3)`.
- `Assoc` holds insertion-ordered dictionaries.
- `Wrappers` holds `Option`, `Result` and `Outcome`, which stand in for return-or-raise.

Each imperative function is a method proved against a specification function. `Check` is proved
against `CheckSpec`, `CheckData` against `CheckedState`/`CheckVerdict`, `Store.WriteData` against
`Write`, `FormatData` against `Record` and `SetDbTables` against `JoinTrailing`/`Strip`. The
properties are lemmas about those functions.

## Model

| member | source | states |
|---|---|---|
| ArgsChecker.SanitizeFrom | API/app/utils/args_checker.py:88-90 | the pattern loop from pattern `k` on raises exactly when one of the remaining patterns occurs, and then with the injection error for the argument |
| ArgsChecker.SanitizeSQL | API/app/utils/args_checker.py:84-93 | a raised error is always the injection error carrying the argument itself |
| ArgsChecker.SanitizeSQLRejects | API/app/utils/args_checker.py:86-90 | `sanitizeSQL` raises exactly when the argument contains `;`, `--`, `/*`, `*/`, `'`, `"` or `#` (the escaped-star regexes match literally) |
| ArgsChecker.CheckDate | API/app/utils/args_checker.py:59-68 | succeeds exactly when the text parses; a date strictly before now comes back unchanged, a date at or after now becomes the formatted clock, and whatever comes back parses and is not later than now; failure is the bad-date error for the argument |
| ArgsChecker.CheckArg | API/app/utils/args_checker.py:23-38 | one loop iteration raises the missing-`table_id` error only for a missing value, and for a present value an error (injection, unknown table or bad date) that carries that value |
| ArgsChecker.CheckArgCases | API/app/utils/args_checker.py:23-38 | one loop iteration: sanitizing comes first for every key; `table_id` passes exactly when present, clean and in the allow-list; a missing value fails only for `table_id` and otherwise stays missing; only the two dates can change, and a present date comes back parsed and not later than now |
| ArgsChecker.CheckArgs | API/app/utils/args_checker.py:23-40 | the loop leaves exactly as many entries as it was given and never raises the unset-allow-list error |
| ArgsChecker.CheckSpec | API/app/utils/args_checker.py:19-43 | `check` keeps the number of entries, raises the unset-allow-list error exactly when `API_DB_TABLES` is unset, and then rewrites nothing |
| ArgsChecker.Check | API/app/utils/args_checker.py:19-43 | the in-place loop leaves the dictionary and the outcome that `CheckSpec` gives for the old contents, and on success returns the same dictionary object |
| ArgsChecker.CheckArgsShape | API/app/utils/args_checker.py:31-40 | whether or not `check` raises, every entry keeps its key and only dates change; on success each entry holds what its own iteration computed |
| ArgsChecker.CheckArgsFailure | API/app/utils/args_checker.py:23-38 | the loop raises exactly when some entry fails, and then with the error of the first failing entry in iteration order |
| ArgsChecker.CheckArgsOutcome | API/app/utils/args_checker.py:23-43 | the two lemmas above together: failure iff some entry fails, first failure wins, values and shape on success |
| ArgsChecker.CheckRejectsMissingTableId | API/app/utils/args_checker.py:36-38 | a `table_id` of `None` always makes `check` raise |
| ArgsChecker.CheckRejectsUnknownTable | API/app/utils/args_checker.py:20-29 | a present `table_id` outside the split allow-list (or an unset allow-list) makes `check` raise |
| ArgsChecker.CheckRejectsInjection | API/app/utils/args_checker.py:24-25 | a prohibited pattern in any present argument makes `check` raise, with the injection error when the entries before it pass, even for a known table |
| ArgsChecker.CheckPassed | API/app/utils/args_checker.py:27-40 | after a successful `check` the allow-list was set, every present value is clean, `table_id` is present and allowed, only dates changed, missing dates stay missing, and every present date parses and is not later than now |
| DataManager.Acceptable | API/ORUS_API/app/model/data_manager.py:51-59 | (definition, no contract of its own) an entry passes when its key is `CLIENT_ID`, or a table name whose value is a number |
| DataManager.Rejection | API/ORUS_API/app/model/data_manager.py:51-61 | a rejected entry raises `KeyError` exactly when its key is not a table, and `ValueError` otherwise; never for `CLIENT_ID` |
| DataManager.RoundEntry | API/ORUS_API/app/model/data_manager.py:51-53 | an accepted entry keeps its key; `CLIENT_ID` keeps its value; a metric value becomes `round(float(v), 3)` |
| DataManager.FirstInvalid | API/ORUS_API/app/model/data_manager.py:49-61 | the index where validation stops: every earlier entry is acceptable and the entry there is not |
| DataManager.CheckedState | API/ORUS_API/app/model/data_manager.py:46-64 | (definition, no contract of its own) the dictionary after the loop: entries before the first rejected one rounded, the rest as they were; `CheckedStateAt` and `CheckDataKeepsShape` state its properties |
| DataManager.CheckVerdict | API/ORUS_API/app/model/data_manager.py:46-64 | `check_data` returns exactly when every entry is acceptable; otherwise it raises the error of a rejected entry all of whose predecessors are acceptable |
| DataManager.CheckData | API/ORUS_API/app/model/data_manager.py:46-64 | the in-place loop leaves the entries before the first rejected one rounded and the rest untouched, and raises that entry's error, or returns when there is none |
| DataManager.CheckedStateAt | API/ORUS_API/app/model/data_manager.py:49-61 | after `check_data`, whether it returned or raised, each entry keeps its key and is either untouched or, before the stopping point, rounded |
| DataManager.CheckDataKeepsShape | API/ORUS_API/app/model/data_manager.py:49-53 | `check_data` adds and removes no key, keeps keys distinct, leaves `CLIENT_ID`'s value alone, and every changed value was a number replaced by its rounding |
| DataManager.Normalize | API/ORUS_API/app/model/data_manager.py:17-28 | `parse_data` succeeds exactly when every entry is acceptable; otherwise it raises the error of the first rejected entry |
| DataManager.ParseData | API/ORUS_API/app/model/data_manager.py:17-28 | the method that checks the dictionary in place and then stamps it returns exactly `Normalize` |
| DataManager.RoundAllContents | API/ORUS_API/app/model/data_manager.py:49-53 | a fully accepted payload, rewritten, has the same distinct keys, the same `CLIENT_ID`, and every other key is a table whose number was rounded |
| DataManager.NormalizeContents | API/ORUS_API/app/model/data_manager.py:20-25 | when `check_data` returns, `parse_data` succeeds and returns every payload key plus `timestamp` (appended when absent) holding the formatted receive time, `CLIENT_ID` unchanged, and every other key a table with its rounded number |
| DataManager.NormalizeExample | API/ORUS_API/app/model/data_manager.py:20-25 | `{"CLIENT_ID": "dev1", "TEMPERATURE": 23.4567}` becomes `{"CLIENT_ID": "dev1", "TEMPERATURE": 23.457, "timestamp": now}` |
| Json.IsNumber | API/ORUS_API/app/model/data_manager.py:52 | (definition, no contract of its own) `isinstance(v, (int, float))`: an integer, a float or a boolean |
| Json.RoundHalfEven | API/ORUS_API/app/model/data_manager.py:53 | the nearest integer, ties going to the even one |
| Json.Round3 | API/ORUS_API/app/model/data_manager.py:53 | `round(x, 3)` has at most three decimals and lies within half a thousandth of `x` |
| Json.Round3Idempotent | API/ORUS_API/app/model/data_manager.py:53 | rounding an already rounded value changes nothing |
| Json.Rounded | API/ORUS_API/app/model/data_manager.py:53 | `round(float(v), 3)` is a float with three decimals within half a thousandth of `float(v)` |
| Assoc.AssignProperties | API/ORUS_API/app/model/data_manager.py:22 | `d[k] = v` keeps keys distinct, makes `d[k]` equal `v`, appends `k` only when it was new, and leaves every other key's value alone |
| Assoc.AssignAt | API/ORUS_API/app/model/data_manager.py:53 | assigning to an existing key rewrites that position only |
| Assoc.Dict.Set | API/ORUS_API/app/model/data_manager.py:53 | the in-place assignment leaves the dictionary `Assign` gives for the old contents and keeps keys distinct |
| DbConnections.Register | API/app/connections/db_connections.py:88-93 | afterwards the chip is in `iot_chips`; existing rows stay in order and nothing is added when the chip was there; other tables are untouched; a table without duplicates keeps none |
| DbConnections.WriteReadings | API/app/connections/db_connections.py:95-102 | the insert loop never touches `iot_chips` or `data_types` and creates or drops no table |
| DbConnections.Write | API/app/connections/db_connections.py:84-105 | `write_data` never changes `data_types` and creates or drops no table |
| DbConnections.Store.WriteData | API/app/connections/db_connections.py:84-105 | the method leaves the store and the outcome that `Write` gives for the old state |
| DbConnections.Store.WriteRows | API/app/connections/db_connections.py:95-102 | the in-place insert loop leaves the store and the outcome that `WriteReadings` gives for the old state |
| DbConnections.FirstUnwritable | API/app/connections/db_connections.py:95-98 | the index where the insert loop stops: every earlier metric key has a `DATA_ID` and a table, the key there lacks one |
| DbConnections.WriteReadingsClosed | API/app/connections/db_connections.py:95-105 | the insert loop in closed form: it stops at the first unwritable key with that key's error, and each table gains, in message order, the rows of the metric keys before that point |
| DbConnections.RowsForShape | API/app/connections/db_connections.py:95-101 | only a metric key naming table `t` yields rows of `t`, and each row carries the call's chip, the key's `DATA_ID` and the call's date |
| DbConnections.RowsForUnique | API/app/connections/db_connections.py:95-101 | in a dictionary a metric key yields exactly one row `(CHIP_ID, DATA_ID, value, DATE)` of its table |
| DbConnections.WriteEffect | API/app/connections/db_connections.py:84-105 | with both keys present: the chip is appended to `iot_chips` only when absent, `data_types` and the set of tables are unchanged, each table gains the rows of the keys before the stopping point, and the outcome is that of the stopping point |
| DbConnections.WriteOutcome | API/app/connections/db_connections.py:84-105 | the error is a missing `CLIENT_ID`, then a missing `timestamp`, then the first unwritable key; success iff both keys are present and every metric key is writable; a missing key changes nothing |
| DbConnections.WriteRegistersChip | API/app/connections/db_connections.py:88-93 | afterwards the chip is in `iot_chips`; it is inserted only when absent, so `iot_chips` never holds a chip twice |
| DbConnections.WriteTable | API/app/connections/db_connections.py:95-102 | table `t` after the call: its rows before, then the rows of the keys before the stopping point |
| DbConnections.WriteOneRow | API/app/connections/db_connections.py:95-102 | a metric key before the stopping point appends exactly one row `(CHIP_ID, DATA_ID, value, DATE)` to its table, which exists and has a `DATA_ID` |
| DbConnections.WriteStops | API/app/connections/db_connections.py:97-105 | a key at or after the stopping point writes nothing to its table, because the loop ended before reaching it (what earlier keys committed is stated by `WriteTable` and `WriteEffect`) |
| DbConnections.TableFrame | API/app/connections/db_connections.py:88-102 | one table of `WriteFrame` |
| DbConnections.WriteFrame | API/app/connections/db_connections.py:88-102 | tables not named by a metric key are unchanged, every table only grows, and every new row carries the message's `CLIENT_ID`, its `timestamp` and the table's `DATA_ID` |
| DbConnections.WriteTwice | API/app/connections/db_connections.py:88-102 | writing a message twice registers the chip once and succeeds again, but appends the message's rows a second time (no idempotence for readings) |
| DbConnections.NormalizedWritable | API/app/connections/db_connections.py:85-98 | a message `parse_data` produced from a payload with `CLIENT_ID` has distinct keys, both required keys, and no unwritable key when every metric has a `DATA_ID` and a table |
| DbConnections.IngestMessage | API/app/connections/db_connections.py:84-102 | for a payload that has `CLIENT_ID`, whose every metric key has a `data_types` row and a table, and that `parse_data` accepts: writing the result succeeds, and each metric table gains exactly the row `(CLIENT_ID, DATA_ID, rounded value, formatted receive time)`; without those preconditions `write_data` raises (a payload without `CLIENT_ID` fails at line 85) |
| DbConnections.IngestRow | API/app/connections/db_connections.py:95-102 | one table of `IngestMessage` |
| Dates.ParseDate | API/app/utils/args_checker.py:60 | `strptime` accepts only valid calendar datetimes, with no microseconds |
| Dates.Format | API/app/utils/args_checker.py:63 | `strftime("%Y-%m-%d %H:%M:%S")` is 19 characters of digits, `-`, space and `:` |
| Dates.ParseFormat | API/app/utils/args_checker.py:60-63 | parsing a formatted clock reading gives the reading back without its microseconds |
| Text.Split | API/app/utils/args_checker.py:21 | `str.split()` returns only non-empty words without whitespace (that they are the maximal whitespace-free runs, in order, is `SplitSpaced`) |
| Text.SplitFrom | API/app/utils/args_checker.py:21 | the scan with a pending word returns only non-empty words without whitespace |
| Text.ContainsChar | API/app/utils/args_checker.py:89 | searching for a one-character pattern is membership of that character |
| Text.TrimLeft | API/app/API.py:215 | `lstrip()` is the suffix left after dropping a run of whitespace, and it does not start with whitespace |
| Text.TrimRight | API/app/API.py:215 | `rstrip()` is the prefix left after dropping a run of whitespace, and it does not end with whitespace |
| Text.Strip | API/app/API.py:215 | `strip()` is a slice of the string with only whitespace before and after it |
| Text.JoinTrailingSnoc | API/app/API.py:212-213 | one more turn of the loop appends the name and one space |
| Text.StripEnds | API/app/API.py:215 | a stripped string neither starts nor ends with whitespace |
| Text.StripJoinTrailing | API/app/API.py:212-215 | stripping the accumulated string of whitespace-free names gives the names joined by single spaces |
| Text.SplitJoin | API/app/utils/args_checker.py:21 | splitting names joined by single spaces gives the names back |
| Text.SplitSpaced | API/app/utils/args_checker.py:21 | a text made of words separated by non-empty whitespace runs, with any whitespace before and after, splits into exactly those words in order |
| Text.SplitBlank | API/app/utils/args_checker.py:21 | a text of whitespace only splits into no words |
| Api.ColumnNames | API/app/API.py:279 | the first component of each descriptor, in order; `None` (an index error) exactly when a descriptor is empty |
| Api.Record | API/app/API.py:283 | a record has at most one key per value of the row |
| Api.RecordEntries | API/app/API.py:283 | a record's keys are the first `len(row)` names, and a name keeps the value of its last position |
| Api.FormatData | API/app/API.py:276-288 | succeeds iff every descriptor is non-empty and no row is longer than the column list; then one record per row, in order |
| Api.FormatDataRecords | API/app/API.py:279-283 | with distinct column names, record `i` maps the name of column `j` to `data[i][j]` for every `j < len(row)`, and has no other key |
| Api.RecordSize | API/app/API.py:283 | a record over distinct names has one key per value |
| Api.SelectQuery | API/app/API.py:151-158 | every query starts with `SELECT * FROM` and the table name, and is exactly that text, with no `WHERE` clause, when both dates are missing |
| Api.FixedText | API/app/API.py:152-158 | the fixed text of the queries holds neither a quote nor `;` |
| Api.QueryLiterals | API/app/API.py:151-158 | the query's string literals are none (both dates missing), the start date (end date missing), or the printed start date and the end date, so a missing start date gives the literal `None` |
| Api.QuerySemicolon | API/app/API.py:151-158 | the query holds `;` only if the table name or a printed date does |
| Api.SanitizedChars | API/app/utils/args_checker.py:86-90 | a value `sanitizeSQL` accepts holds neither a quote nor `;` |
| Api.FormatChars | API/app/utils/args_checker.py:63 | the formatted clock holds neither a quote nor `;` |
| Api.CheckedArg | API/app/API.py:140-143 | an argument `check` let through holds no quote and no `;`; a present date parses and is not later than now; a table is in the allow-list |
| Api.CheckedTable | API/app/API.py:140-143 | a request `check` let through has its `table_id` |
| Api.QueryLiteralsChecked | API/app/API.py:151-158 | clean arguments with checked dates give a query whose literals are all checked dates or `None` |
| Api.CheckedBoundsQuery | API/app/API.py:151-158 | a clean table name and clean checked bounds give a query without `;` whose literals are checked |
| Api.CheckedQuery | API/app/API.py:140-158 | for a request `check` accepts, the query reads an allowed table, holds no `;`, and each of its literals is a date not later than now or the text `None` |
| Api.SetDbTables | API/app/API.py:210-215 | the allow-list string is every table's first field followed by a space, stripped, so it has no leading or trailing whitespace; no string when a row is empty |
| Api.AllowListRoundTrip | API/app/API.py:210-216 | with whitespace-free table names, the stored string is the names joined by single spaces; `check` splits it back into exactly those names and accepts a `table_id` iff it is one of them and is clean |

## Left out

- MySQL, MQTT, Flask and the file system are not modelled: connection set-up, `execute`, `close`, logging, credentials, the broker callback and `start`. The database is the in-memory `Store`. Query execution is not modelled: the model builds the query text and reasons about it.
- The `SHOW columns` query (`API/app/API.py:148`) is not modelled. `format_data` takes the column descriptors as input.
- `json.loads` is not modelled. A payload is an already parsed, insertion-ordered list of distinct keys.
- Json.Round3: numbers are exact reals, rounded half-to-even on the exact value. Python rounds the binary float, which can differ when the decimal value is not exactly representable. Infinities and NaN are not modelled.
- Json.IsNumber: a JSON `true`/`false` counts as a number, because `bool` is a subclass of `int`. That part is modelled; integers wider than a float are not distinguished.
- Dates.ParseDate: only ASCII digits are accepted. `strptime` also accepts other Unicode decimal digits. Locale-specific behaviour is not modelled.
- ArgsChecker.CheckDate: `check_date` reads `datetime.now()` twice. The model takes a single clock reading `now` as a parameter, so the instant compared with and the instant printed are the same. Clock readings are required to have a four-digit year (`Dates.IsClock`).
- DataManager.ParseData: the receive time is the same clock parameter, formatted once.
- DataManager.CheckData: the `valid_keys`/`valid_values` flags are not kept. Each is set to false just before a `raise`, so the guard that reads them never sees them false.
- DbConnections.Store.WriteData: a failing `insert into iot_chips` is not modelled. A failing metric insert is modelled only as a missing table. SQL errors from a key that holds a quote, MySQL type coercion of values and collation in `MEASURE_NAME` lookups are not modelled.
- `iot_chips` is a sequence of rows, not a set. This makes "never registered twice" a real invariant.
- No statement is made about concurrent writers: each call runs alone on the store.
- DbConnections.IngestMessage: joins `parse_data` of `API/ORUS_API/app/model/data_manager.py` to `write_data`, following the documented flow of a message. The broker callback in `API/app/API.py:246` calls `data_checker.parse_data`, whose module is not part of this model, so the lemma is not about that call path.
- Api.AllowListRoundTrip: the round trip needs table names without whitespace, which MySQL allows only when quoted. Names with whitespace would be split apart by `check`.
- Api.CheckedQuery: the query text is modelled, not how MySQL compares `DATE` with the literal `'None'`. When only the end date is given, the lower bound is that literal, as written in the source.
