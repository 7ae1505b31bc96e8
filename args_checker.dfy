/** Validation of the query arguments a web client sends: `check`, `check_date` and `sanitizeSQL`
    of `API/app/utils/args_checker.py`. */
module ArgsChecker {
  import opened Wrappers
  import opened Assoc
  import Text
  import Dates

  /** The exceptions `check` raises. */
  datatype ArgError =
    | NoAllowList              // `API_DB_TABLES` is unset: `None.split()` raises
    | Injection(arg: string)   // `sanitizeSQL` found a prohibited pattern
    | UnknownTable(table: string)
    | MissingTableId
    | BadDate(arg: string)     // `check_date` could not parse its argument

  /** A query argument: its name and its value, `None` when the request did not carry it. */
  type Arg = (string, Option<string>)

  const TableId := "table_id"
  const StartDate := "start_date"
  const EndDate := "end_date"

  // The substrings `sanitizeSQL` searches for. Its two regexes with an escaped star match the
  // two-character strings written here; the other patterns contain no special character.
  const ProhibitedPatterns: seq<string> := [";", "--", "/*", "*/", "'", "\"", "#"]

  /** The loop of `sanitizeSQL` from pattern `k` on. */
  function SanitizeFrom(arg: string, k: nat): (r: Outcome<ArgError>)
    requires k <= |ProhibitedPatterns|
    ensures r.Fail? <==> exists j :: k <= j < |ProhibitedPatterns| && Text.Contains(arg, ProhibitedPatterns[j])
    ensures r.Fail? ==> r.error == Injection(arg)
    decreases |ProhibitedPatterns| - k
  {
    if k == |ProhibitedPatterns| then Pass
    else if Text.Contains(arg, ProhibitedPatterns[k]) then Fail(Injection(arg))
    else SanitizeFrom(arg, k + 1)
  }

  /** `sanitizeSQL(arg)`: raises when `arg` contains a prohibited pattern, otherwise returns
      (the argument itself is never changed). */
  function SanitizeSQL(arg: string): (r: Outcome<ArgError>)
    ensures r.Fail? ==> r.error == Injection(arg)
  {
    SanitizeFrom(arg, 0)
  }

  /** The seven patterns, spelled out: `sanitizeSQL` rejects exactly the arguments containing one. */
  lemma SanitizeSQLRejects(arg: string)
    ensures SanitizeSQL(arg).Fail? <==>
      Text.Contains(arg, ";") || Text.Contains(arg, "--") || Text.Contains(arg, "/*") ||
      Text.Contains(arg, "*/") || Text.Contains(arg, "'") || Text.Contains(arg, "\"") ||
      Text.Contains(arg, "#")
  {
    var ps := ProhibitedPatterns;
    assert ps[0] == ";" && ps[1] == "--" && ps[2] == "/*" && ps[3] == "*/";
    assert ps[4] == "'" && ps[5] == "\"" && ps[6] == "#";
  }

  /** `check_date(arg)` against the clock reading `now`. */
  function CheckDate(arg: string, now: Dates.DateTime): (r: Result<string, ArgError>)
    requires Dates.IsClock(now)
    ensures r.Success? <==> Dates.ParseDate(arg).Some?
    ensures r.Failure? ==> r.error == BadDate(arg)
    ensures r.Success? && Dates.Before(Dates.ParseDate(arg).value, now) ==> r.value == arg
    ensures r.Success? && !Dates.Before(Dates.ParseDate(arg).value, now) ==> r.value == Dates.Format(now)
    ensures r.Success? ==> Dates.ParseDate(r.value).Some? && !Dates.Before(now, Dates.ParseDate(r.value).value)
  {
    match Dates.ParseDate(arg)
    case None => Failure(BadDate(arg))
    case Some(date) =>
      if !Dates.Before(date, now) then
        Dates.ParseFormat(now);
        Success(Dates.Format(now))
      else Success(arg)
  }

  /** One iteration of the loop in `check`: the value the entry holds afterwards, or the exception,
      which names the offending value (see `CheckArgCases` for the rest). */
  function CheckArg(key: string, value: Option<string>, tables: seq<string>, now: Dates.DateTime): (r: Result<Option<string>, ArgError>)
    requires Dates.IsClock(now)
    ensures r.Failure? && value.None? ==> r.error == MissingTableId
    ensures r.Failure? && value.Some? ==>
      r.error == Injection(value.value) || r.error == UnknownTable(value.value) || r.error == BadDate(value.value)
  {
    match value
    case None => if key == TableId then Failure(MissingTableId) else Success(None)
    case Some(v) =>
      if SanitizeSQL(v).Fail? then Failure(SanitizeSQL(v).error)
      else if key == TableId then (if v in tables then Success(value) else Failure(UnknownTable(v)))
      else if key == StartDate || key == EndDate then
        match CheckDate(v, now)
        case Success(d) => Success(Some(d))
        case Failure(e) => Failure(e)
      else Success(value)
  }

  /** What one iteration of `check` does with an entry: sanitizing comes first, whatever the key; a
      `table_id` must be present and allowed; a present date must parse and comes out not later than
      `now`; other keys pass unchanged; a missing value stays missing. */
  lemma CheckArgCases(key: string, value: Option<string>, tables: seq<string>, now: Dates.DateTime)
    requires Dates.IsClock(now)
    ensures var r := CheckArg(key, value, tables, now);
      && (value.Some? && SanitizeSQL(value.value).Fail? ==> r == Failure(Injection(value.value)))
      && (r.Success? && value.Some? ==> SanitizeSQL(value.value).Pass? && r.value.Some?)
      && (value.None? ==> (r.Failure? <==> key == TableId))
      && (r.Success? ==> (r.value.None? <==> value.None?))
      && (key == TableId ==> (r.Success? <==> value.Some? && SanitizeSQL(value.value).Pass? && value.value in tables))
      && (r.Success? && key != StartDate && key != EndDate ==> r.value == value)
      && (r.Success? && (key == StartDate || key == EndDate) && value.Some? ==>
            Dates.ParseDate(r.value.value).Some? && !Dates.Before(now, Dates.ParseDate(r.value.value).value))
      // a value is either kept or replaced by the formatted clock
      && (r.Success? && value.Some? ==> r.value.value == value.value || r.value.value == Dates.Format(now))
  {
  }

  /** The loop of `check` over the arguments in order: the arguments afterwards (entries before a
      failing one already rewritten) and whether it raised. */
  function CheckArgs(items: seq<Arg>, tables: seq<string>, now: Dates.DateTime): (r: (seq<Arg>, Outcome<ArgError>))
    requires Dates.IsClock(now)
    ensures |r.0| == |items|
    ensures r.1.Fail? ==> !r.1.error.NoAllowList?
    decreases |items|
  {
    if items == [] then ([], Pass)
    else
      match CheckArg(items[0].0, items[0].1, tables, now)
      case Failure(e) => (items, Fail(e))
      case Success(v) =>
        var rest := CheckArgs(items[1..], tables, now);
        ([(items[0].0, v)] + rest.0, rest.1)
  }

  /** `check(args)` with the environment variable `API_DB_TABLES` as `env`. */
  function CheckSpec(items: seq<Arg>, env: Option<string>, now: Dates.DateTime): (r: (seq<Arg>, Outcome<ArgError>))
    requires Dates.IsClock(now)
    ensures |r.0| == |items|
    ensures r.1 == Fail(NoAllowList) <==> env.None?
    ensures env.None? ==> r.0 == items
  {
    match env
    case None => (items, Fail(NoAllowList))
    case Some(tables) => CheckArgs(items, Text.Split(tables), now)
  }

  function OutcomeOf<R, E>(r: Result<R, E>): Outcome<E>
  {
    match r
    case Success(_) => Pass
    case Failure(e) => Fail(e)
  }

  /** The loop invariant of `check`: entries before `i` hold what the loop wrote, the rest are untouched. */
  ghost predicate CheckedUpTo(items: seq<Arg>, current: seq<Arg>, i: nat, tables: seq<string>, now: Dates.DateTime)
    requires Dates.IsClock(now)
  {
    i <= |items| == |current| && current[i..] == items[i..] &&
    CheckArgs(items, tables, now) == (current[..i] + CheckArgs(items[i..], tables, now).0, CheckArgs(items[i..], tables, now).1)
  }

  lemma CheckedStart(items: seq<Arg>, tables: seq<string>, now: Dates.DateTime)
    requires Dates.IsClock(now)
    ensures CheckedUpTo(items, items, 0, tables, now)
  {
    assert items[0..] == items && items[..0] == [];
    var r := CheckArgs(items, tables, now);
    assert [] + r.0 == r.0;
  }

  /** Entry `i` raises: the loop stops and the arguments stay as they are. */
  lemma CheckedFail(items: seq<Arg>, current: seq<Arg>, i: nat, tables: seq<string>, now: Dates.DateTime)
    requires Dates.IsClock(now) && CheckedUpTo(items, current, i, tables, now) && i < |items|
    requires CheckArg(items[i].0, items[i].1, tables, now).Failure?
    ensures CheckArgs(items, tables, now) == (current, Fail(CheckArg(items[i].0, items[i].1, tables, now).error))
  {
    assert items[i..][0] == items[i];
    assert current[..i] + items[i..] == current;
  }

  /** Entry `i` passes and is rewritten with the value `check` computed for it. */
  lemma CheckedStep(items: seq<Arg>, current: seq<Arg>, i: nat, tables: seq<string>, now: Dates.DateTime)
    requires Dates.IsClock(now) && CheckedUpTo(items, current, i, tables, now) && i < |items|
    requires CheckArg(items[i].0, items[i].1, tables, now).Success?
    ensures CheckedUpTo(items, current[i := (items[i].0, CheckArg(items[i].0, items[i].1, tables, now).value)], i + 1, tables, now)
  {
    var v := CheckArg(items[i].0, items[i].1, tables, now).value;
    var next := current[i := (items[i].0, v)];
    assert items[i..][0] == items[i] && items[i..][1..] == items[i + 1..];
    var rest := CheckArgs(items[i + 1..], tables, now);
    assert CheckArgs(items[i..], tables, now) == ([(items[i].0, v)] + rest.0, rest.1);
    assert next[..i + 1] == current[..i] + [(items[i].0, v)];
    assert current[..i] + ([(items[i].0, v)] + rest.0) == next[..i + 1] + rest.0;
    assert next[i + 1..] == items[i + 1..];
  }

  lemma CheckedEnd(items: seq<Arg>, current: seq<Arg>, tables: seq<string>, now: Dates.DateTime)
    requires Dates.IsClock(now) && CheckedUpTo(items, current, |items|, tables, now)
    ensures CheckArgs(items, tables, now) == (current, Pass)
  {
    assert items[|items|..] == [];
    assert current[..|items|] + [] == current;
  }

  /** `check(args)`: validates the arguments in iteration order, rewriting the two dates in place, and
      returns the same dictionary. */
  method Check(args: Dict<Option<string>>, env: Option<string>, now: Dates.DateTime) returns (r: Result<Dict<Option<string>>, ArgError>)
    requires args.Valid() && Dates.IsClock(now)
    modifies args
    ensures args.Valid()
    ensures r.Success? ==> r.value == args
    ensures (args.items, OutcomeOf(r)) == CheckSpec(old(args.items), env, now)
  {
    if env.None? {
      return Failure(NoAllowList);
    }
    var tables := Text.Split(env.value);
    ghost var items := args.items;
    CheckedStart(items, tables, now);
    var i := 0;
    while i < |args.items|
      invariant args.Valid() && CheckedUpTo(items, args.items, i, tables, now)
    {
      var (key, value) := args.items[i];
      if value.Some? {
        var sanitized := SanitizeSQL(value.value);
        if sanitized.Fail? {
          CheckedFail(items, args.items, i, tables, now);
          return Failure(sanitized.error);
        }
        if key == TableId {
          if value.value !in tables {
            CheckedFail(items, args.items, i, tables, now);
            return Failure(UnknownTable(value.value));
          }
        } else if key == StartDate || key == EndDate {
          var checked := CheckDate(value.value, now);
          if checked.Failure? {
            CheckedFail(items, args.items, i, tables, now);
            return Failure(checked.error);
          }
          AssignAt(args.items, i, Some(checked.value));
          CheckedStep(items, args.items, i, tables, now);
          args.Set(key, Some(checked.value));
          i := i + 1;
          continue;
        }
      } else if key == TableId {
        CheckedFail(items, args.items, i, tables, now);
        return Failure(MissingTableId);
      }
      CheckedStep(items, args.items, i, tables, now);
      assert args.items[i := (key, value)] == args.items;
      i := i + 1;
    }
    CheckedEnd(items, args.items, tables, now);
    return Success(args);
  }

  // ---- what `check` guarantees ----------------------------------------------------------------

  /** Where `check` left an entry: same key, missing exactly when it was missing, and unchanged
      unless it is one of the two dates. */
  ghost predicate SameShape(before: Arg, after: Arg)
  {
    after.0 == before.0 && (after.1.None? <==> before.1.None?) &&
    (before.0 != StartDate && before.0 != EndDate ==> after == before)
  }

  /** Entry `i` is the first one `check` rejects. */
  ghost predicate FirstFailure(items: seq<Arg>, i: int, tables: seq<string>, now: Dates.DateTime)
    requires Dates.IsClock(now)
  {
    0 <= i < |items| && CheckArg(items[i].0, items[i].1, tables, now).Failure? &&
    forall j :: 0 <= j < i ==> CheckArg(items[j].0, items[j].1, tables, now).Success?
  }

  /** An entry that passes keeps its shape. */
  lemma CheckArgKeeps(key: string, value: Option<string>, tables: seq<string>, now: Dates.DateTime)
    requires Dates.IsClock(now) && CheckArg(key, value, tables, now).Success?
    ensures SameShape((key, value), (key, CheckArg(key, value, tables, now).value))
  {
    CheckArgCases(key, value, tables, now);
  }

  /** When the loop does not raise, each entry holds what its own iteration computed. */
  lemma {:induction false} CheckArgsValues(items: seq<Arg>, tables: seq<string>, now: Dates.DateTime)
    requires Dates.IsClock(now)
    ensures var r := CheckArgs(items, tables, now);
      r.1.Pass? ==> forall i :: 0 <= i < |items| ==> CheckArg(items[i].0, items[i].1, tables, now) == Success(r.0[i].1)
    decreases |items|
  {
    var r := CheckArgs(items, tables, now);
    if items != [] && r.1.Pass? {
      var rest := CheckArgs(items[1..], tables, now);
      CheckArgsValues(items[1..], tables, now);
      var first := CheckArg(items[0].0, items[0].1, tables, now);
      assert r.0 == [(items[0].0, first.value)] + rest.0;
      forall i | 1 <= i < |items|
        ensures CheckArg(items[i].0, items[i].1, tables, now) == Success(r.0[i].1)
      {
        assert items[i] == items[1..][i - 1] && r.0[i] == rest.0[i - 1];
      }
    }
  }

  lemma ShapeCons(items: seq<Arg>, x: Arg, rest: seq<Arg>)
    requires items != [] && |rest| == |items| - 1 && SameShape(items[0], x)
    requires forall i :: 0 <= i < |rest| ==> SameShape(items[1..][i], rest[i])
    ensures forall i :: 0 <= i < |items| ==> SameShape(items[i], ([x] + rest)[i])
  {
    forall i | 1 <= i < |items|
      ensures SameShape(items[i], ([x] + rest)[i])
    {
      assert items[i] == items[1..][i - 1] && ([x] + rest)[i] == rest[i - 1];
    }
  }

  /** Whether or not the loop raises, every entry keeps its key and only dates change. */
  lemma {:induction false} CheckArgsKeep(items: seq<Arg>, tables: seq<string>, now: Dates.DateTime)
    requires Dates.IsClock(now)
    ensures var r := CheckArgs(items, tables, now);
      forall i :: 0 <= i < |items| ==> SameShape(items[i], r.0[i])
    decreases |items|
  {
    if items != [] {
      var r := CheckArgs(items, tables, now);
      var first := CheckArg(items[0].0, items[0].1, tables, now);
      if first.Success? {
        var rest := CheckArgs(items[1..], tables, now);
        CheckArgsKeep(items[1..], tables, now);
        CheckArgKeeps(items[0].0, items[0].1, tables, now);
        assert items[0] == (items[0].0, items[0].1);
        ShapeCons(items, (items[0].0, first.value), rest.0);
      } else {
        assert r.0 == items;
      }
    }
  }

  /** Whether or not the loop raises, every entry keeps its key and only dates change; when it does not
      raise, each entry holds what its own iteration computed. */
  lemma CheckArgsShape(items: seq<Arg>, tables: seq<string>, now: Dates.DateTime)
    requires Dates.IsClock(now)
    ensures var r := CheckArgs(items, tables, now);
      && (r.1.Pass? ==> forall i :: 0 <= i < |items| ==> CheckArg(items[i].0, items[i].1, tables, now) == Success(r.0[i].1))
      && forall i :: 0 <= i < |items| ==> SameShape(items[i], r.0[i])
  {
    CheckArgsValues(items, tables, now);
    CheckArgsKeep(items, tables, now);
  }

  /** The loop raises exactly when some entry fails, and then with the exception of the first such entry. */
  lemma {:induction false} CheckArgsFailure(items: seq<Arg>, tables: seq<string>, now: Dates.DateTime)
    requires Dates.IsClock(now)
    ensures var r := CheckArgs(items, tables, now);
      && (r.1.Fail? <==> exists i :: 0 <= i < |items| && CheckArg(items[i].0, items[i].1, tables, now).Failure?)
      && (r.1.Fail? ==> exists i :: FirstFailure(items, i, tables, now) && CheckArg(items[i].0, items[i].1, tables, now) == Failure(r.1.error))
    decreases |items|
  {
    if items != [] {
      var rest := CheckArgs(items[1..], tables, now);
      CheckArgsFailure(items[1..], tables, now);
      var r := CheckArgs(items, tables, now);
      var first := CheckArg(items[0].0, items[0].1, tables, now);
      if first.Success? {
        assert r.1 == rest.1;
        forall i | 1 <= i < |items|
          ensures CheckArg(items[i].0, items[i].1, tables, now) == CheckArg(items[1..][i - 1].0, items[1..][i - 1].1, tables, now)
        {
          assert items[i] == items[1..][i - 1];
        }
        if r.1.Fail? {
          var k :| FirstFailure(items[1..], k, tables, now) && CheckArg(items[1..][k].0, items[1..][k].1, tables, now) == Failure(r.1.error);
          assert CheckArg(items[k + 1].0, items[k + 1].1, tables, now) == Failure(r.1.error);
          forall j | 0 <= j < k + 1
            ensures CheckArg(items[j].0, items[j].1, tables, now).Success?
          {
            if j > 0 { assert items[j] == items[1..][j - 1]; }
          }
        }
      } else {
        assert CheckArg(items[0].0, items[0].1, tables, now) == Failure(r.1.error);
      }
    }
  }

  /** The loop raises exactly when some entry fails, and then with the exception of the first such
      entry; whether or not it raises, every entry keeps its key and only dates change. */
  lemma CheckArgsOutcome(items: seq<Arg>, tables: seq<string>, now: Dates.DateTime)
    requires Dates.IsClock(now)
    ensures var r := CheckArgs(items, tables, now);
      && (r.1.Fail? <==> exists i :: 0 <= i < |items| && CheckArg(items[i].0, items[i].1, tables, now).Failure?)
      && (r.1.Fail? ==> exists i :: FirstFailure(items, i, tables, now) && CheckArg(items[i].0, items[i].1, tables, now) == Failure(r.1.error))
      && (r.1.Pass? ==> forall i :: 0 <= i < |items| ==> CheckArg(items[i].0, items[i].1, tables, now) == Success(r.0[i].1))
      && forall i :: 0 <= i < |items| ==> SameShape(items[i], r.0[i])
  {
    CheckArgsShape(items, tables, now);
    CheckArgsFailure(items, tables, now);
  }

  /** The allow-list `check` reads from `API_DB_TABLES` (empty when it is unset). */
  function AllowList(env: Option<string>): seq<string>
  {
    if env.Some? then Text.Split(env.value) else []
  }

  /** A `table_id` that is present with value `None` always makes `check` raise. */
  lemma CheckRejectsMissingTableId(items: seq<Arg>, env: Option<string>, now: Dates.DateTime)
    requires Dates.IsClock(now)
    requires exists i :: 0 <= i < |items| && items[i] == (TableId, None)
    ensures CheckSpec(items, env, now).1.Fail?
  {
    if env.Some? {
      CheckArgsOutcome(items, Text.Split(env.value), now);
    }
  }

  /** A `table_id` that is not one of the whitespace-separated names of `API_DB_TABLES` makes `check` raise. */
  lemma CheckRejectsUnknownTable(items: seq<Arg>, env: Option<string>, now: Dates.DateTime)
    requires Dates.IsClock(now)
    requires exists i :: 0 <= i < |items| && items[i].0 == TableId && items[i].1.Some? && items[i].1.value !in AllowList(env)
    ensures CheckSpec(items, env, now).1.Fail?
  {
    if env.Some? {
      CheckArgsOutcome(items, Text.Split(env.value), now);
    }
  }

  /** A prohibited pattern in any present argument, table or date alike, makes `check` raise; when the
      entries before it pass, the exception is the injection one. */
  lemma CheckRejectsInjection(items: seq<Arg>, env: Option<string>, now: Dates.DateTime, i: nat)
    requires Dates.IsClock(now)
    requires i < |items| && items[i].1.Some? && SanitizeSQL(items[i].1.value).Fail?
    ensures CheckSpec(items, env, now).1.Fail?
    ensures env.Some? && (forall j :: 0 <= j < i ==> CheckArg(items[j].0, items[j].1, Text.Split(env.value), now).Success?) ==>
      CheckSpec(items, env, now).1 == Fail(Injection(items[i].1.value))
  {
    if env.Some? {
      var tables := Text.Split(env.value);
      CheckArgsOutcome(items, tables, now);
      var r := CheckArgs(items, tables, now);
      if forall j :: 0 <= j < i ==> CheckArg(items[j].0, items[j].1, tables, now).Success? {
        var k :| FirstFailure(items, k, tables, now) && CheckArg(items[k].0, items[k].1, tables, now) == Failure(r.1.error);
        assert k == i;
      }
    }
  }

  /** After a successful `check`: `table_id`, when present, is a name of the allow-list; no present value
      contains a prohibited pattern; only `start_date` and `end_date` were rewritten, a missing one stays
      missing, and every present one parses and is not later than `now`. */
  lemma CheckPassed(items: seq<Arg>, env: Option<string>, now: Dates.DateTime)
    requires Dates.IsClock(now)
    requires CheckSpec(items, env, now).1.Pass?
    ensures env.Some?
    ensures
      var out := CheckSpec(items, env, now).0;
      |out| == |items| && Keys(out) == Keys(items) &&
      forall i :: 0 <= i < |items| ==>
        && SameShape(items[i], out[i])
        && (items[i].1.Some? ==> SanitizeSQL(items[i].1.value).Pass?)
        && (items[i].0 == TableId ==> items[i].1.Some? && items[i].1.value in Text.Split(env.value))
        && ((items[i].0 == StartDate || items[i].0 == EndDate) && out[i].1.Some? ==>
              Dates.ParseDate(out[i].1.value).Some? && !Dates.Before(now, Dates.ParseDate(out[i].1.value).value))
  {
    var tables := Text.Split(env.value);
    CheckArgsOutcome(items, tables, now);
    var out := CheckSpec(items, env, now).0;
    forall i | 0 <= i < |items|
      ensures Keys(out)[i] == Keys(items)[i]
    {
      assert SameShape(items[i], out[i]);
    }
  }
}
