/** Timestamps in the fixed format `%Y-%m-%d %H:%M:%S`: `datetime.strptime` as CPython's `_strptime`
    implements it for that format, `strftime`, and the chronological order of `datetime` values. */
module Dates {
  import opened Wrappers
  import Text

  /** A `datetime` value (naive, no time zone). */
  datatype DateTime = DateTime(year: int, month: int, day: int, hour: int, minute: int, second: int, micro: int)

  predicate IsLeap(y: int)
  {
    y % 4 == 0 && (y % 100 != 0 || y % 400 == 0)
  }

  function DaysIn(y: int, m: int): int
  {
    if m == 2 then (if IsLeap(y) then 29 else 28)
    else if m == 4 || m == 6 || m == 9 || m == 11 then 30
    else 31
  }

  /** The field ranges the `datetime` constructor enforces. */
  predicate Valid(d: DateTime)
  {
    1 <= d.year <= 9999 && 1 <= d.month <= 12 && 1 <= d.day <= DaysIn(d.year, d.month) &&
    0 <= d.hour < 24 && 0 <= d.minute < 60 && 0 <= d.second < 60 && 0 <= d.micro < 1000000
  }

  /** A reading of `datetime.now()`: a valid datetime with a four-digit year. */
  predicate IsClock(d: DateTime)
  {
    Valid(d) && 1000 <= d.year
  }

  /** Chronological order: `a < b`. */
  predicate Before(a: DateTime, b: DateTime)
  {
    if a.year != b.year then a.year < b.year
    else if a.month != b.month then a.month < b.month
    else if a.day != b.day then a.day < b.day
    else if a.hour != b.hour then a.hour < b.hour
    else if a.minute != b.minute then a.minute < b.minute
    else if a.second != b.second then a.second < b.second
    else a.micro < b.micro
  }

  /** Dropping the microseconds, which `%S` does not print. */
  function Truncate(d: DateTime): DateTime
  {
    d.(micro := 0)
  }

  // ---- parsing --------------------------------------------------------------------------

  predicate IsDigit(c: char)
  {
    '0' <= c <= '9'
  }

  predicate AllDigits(s: string)
  {
    forall i :: 0 <= i < |s| ==> IsDigit(s[i])
  }

  function DigitValue(c: char): nat
    requires IsDigit(c)
  {
    (c as int) - ('0' as int)
  }

  /** `int(s)` for a string of ASCII digits. */
  function Pow10(n: nat): nat
  {
    if n == 0 then 1 else 10 * Pow10(n - 1)
  }

  function Value(s: string): (v: nat)
    requires AllDigits(s)
    ensures v < Pow10(|s|)
  {
    if s == [] then 0 else 10 * Value(s[..|s| - 1]) + DigitValue(s[|s| - 1])
  }

  /** Length of the run of digits starting at `i`. */
  function DigitRun(s: string, i: nat): (n: nat)
    requires i <= |s|
    ensures i + n <= |s| && AllDigits(s[i..i + n])
    ensures i + n == |s| || !IsDigit(s[i + n])
    decreases |s| - i
  {
    if i < |s| && IsDigit(s[i]) then
      var n := 1 + DigitRun(s, i + 1);
      assert s[i..i + n] == [s[i]] + s[i + 1..i + n];
      n
    else 0
  }

  /** A field of one or two digits (`%m`, `%d`, `%H`, `%M` and `%S` all take one or two):
      its value and the index just after it. The next character is not a digit. */
  function Field(s: string, i: nat): (r: Option<(nat, nat)>)
    requires i <= |s|
    ensures r.Some? ==> i < r.value.1 <= i + 2 && r.value.1 <= |s|
  {
    var n := DigitRun(s, i);
    if n == 1 || n == 2 then Some((Value(s[i..i + n]), i + n)) else None
  }

  /** `%d`: `3[01]|[12]\d|0[1-9]|[1-9]| [1-9]`, i.e. a day 1..31 in one or two digits, or a space
      and a single digit 1..9. */
  function DayField(s: string, i: nat): (r: Option<(nat, nat)>)
    requires i <= |s|
    ensures r.Some? ==> i < r.value.1 <= |s|
  {
    if i < |s| && s[i] == ' ' then
      match Field(s, i + 1)
      case Some((v, j)) => if j == i + 2 && 1 <= v then Some((v, j)) else None
      case None => None
    else
      match Field(s, i)
      case Some((v, j)) => if 1 <= v <= 31 then Some((v, j)) else None
      case None => None
  }

  /** The index after the whitespace run starting at `i` (`\s+` in the pattern). */
  function SkipSpace(s: string, i: nat): (j: nat)
    requires i <= |s|
    ensures i <= j <= |s|
    decreases |s| - i
  {
    if i < |s| && Text.IsSpace(s[i]) then SkipSpace(s, i + 1) else i
  }

  predicate At(s: string, i: nat, c: char)
  {
    i < |s| && s[i] == c
  }

  /** `datetime.strptime(s, "%Y-%m-%d %H:%M:%S")`: `None` where it raises `ValueError`.
      The format compiles to `(\d\d\d\d)-(1[0-2]|0[1-9]|[1-9])-(3[01]|[12]\d|0[1-9]|[1-9]| [1-9])\s+`
      `(2[0-3]|[0-1]\d|\d):([0-5]\d|\d):(6[0-1]|[0-5]\d|\d)`, which must match the whole string; the
      `datetime` constructor then rejects year 0, a day past the end of the month and seconds 60 and 61. */
  function ParseDate(s: string): (r: Option<DateTime>)
    ensures r.Some? ==> Valid(r.value) && r.value.micro == 0
  {
    if |s| < 5 || !AllDigits(s[..4]) || s[4] != '-' then None
    else
      var year := Value(s[..4]);
      match Field(s, 5)
      case None => None
      case Some((month, i1)) =>
        if !(1 <= month <= 12) || !At(s, i1, '-') then None
        else
          match DayField(s, i1 + 1)
          case None => None
          case Some((day, i2)) =>
            var i3 := SkipSpace(s, i2);
            if i3 == i2 then None
            else
              match Field(s, i3)
              case None => None
              case Some((hour, i4)) =>
                if hour > 23 || !At(s, i4, ':') then None
                else
                  match Field(s, i4 + 1)
                  case None => None
                  case Some((minute, i5)) =>
                    if minute > 59 || !At(s, i5, ':') then None
                    else
                      match Field(s, i5 + 1)
                      case None => None
                      case Some((second, i6)) =>
                        if second > 61 || i6 != |s| then None
                        else if year < 1 || day > DaysIn(year, month) || second > 59 then None
                        else Some(DateTime(year, month, day, hour, minute, second, 0))
  }

  // ---- formatting -----------------------------------------------------------------------

  function Digit(n: nat): (c: char)
    requires n < 10
    ensures IsDigit(c) && DigitValue(c) == n
  {
    ('0' as int + n) as char
  }

  function Pad2(n: nat): (s: string)
    requires n < 100
    ensures |s| == 2 && AllDigits(s) && Value(s) == n
  {
    var s := [Digit(n / 10), Digit(n % 10)];
    assert s[..1] == [Digit(n / 10)] && s[..1][..0] == [];
    assert Value(s[..1]) == n / 10;
    s
  }

  /** Two more digits multiply the value by a hundred. */
  lemma ValueAppend2(a: string, b: string)
    requires AllDigits(a) && |b| == 2 && AllDigits(b)
    ensures AllDigits(a + b) && Value(a + b) == 100 * Value(a) + Value(b)
  {
    var s := a + b;
    assert s[..|s| - 1] == a + [b[0]];
    assert (a + [b[0]])[..|a|] == a;
    assert b[..1] == [b[0]] && b[..1][..0] == [];
  }

  function Pad4(n: nat): (s: string)
    requires n < 10000
    ensures |s| == 4 && AllDigits(s) && Value(s) == n
  {
    ValueAppend2(Pad2(n / 100), Pad2(n % 100));
    Pad2(n / 100) + Pad2(n % 100)
  }

  /** `d.strftime("%Y-%m-%d %H:%M:%S")`. */
  function Format(d: DateTime): (s: string)
    requires IsClock(d)
    ensures |s| == 19
    ensures forall i :: 0 <= i < |s| ==> IsDigit(s[i]) || s[i] in "- :"
  {
    Pad4(d.year) + "-" + Pad2(d.month) + "-" + Pad2(d.day) + " " +
    Pad2(d.hour) + ":" + Pad2(d.minute) + ":" + Pad2(d.second)
  }

  // ---- the two directions together ----------------------------------------------------------

  lemma FieldOfPad2(s: string, i: nat, n: nat)
    requires n < 100 && i + 2 <= |s| && s[i..i + 2] == Pad2(n)
    requires i + 2 == |s| || !IsDigit(s[i + 2])
    ensures Field(s, i) == Some((n, i + 2))
  {
    assert s[i] == Pad2(n)[0] && s[i + 1] == Pad2(n)[1];
    assert DigitRun(s, i + 2) == 0;
    assert DigitRun(s, i) == 2;
  }

  /** Where each field of a formatted reading sits. */
  lemma FormatLayout(d: DateTime)
    requires IsClock(d)
    ensures var s := Format(d);
      && s[..4] == Pad4(d.year)
      && s[4] == '-' && s[7] == '-' && s[10] == ' ' && s[13] == ':' && s[16] == ':'
      && s[5..7] == Pad2(d.month) && s[8..10] == Pad2(d.day)
      && s[11..13] == Pad2(d.hour) && s[14..16] == Pad2(d.minute) && s[17..19] == Pad2(d.second)
  {
    var s := Format(d);
    var date := Pad4(d.year) + "-" + Pad2(d.month) + "-" + Pad2(d.day);
    var time := Pad2(d.hour) + ":" + Pad2(d.minute) + ":" + Pad2(d.second);
    assert s == date + " " + time;
    assert s[..10] == date && s[10] == ' ' && s[11..] == time;
    assert date[..4] == Pad4(d.year) && date[4] == '-' && date[5..7] == Pad2(d.month);
    assert date[7] == '-' && date[8..10] == Pad2(d.day);
    assert time[..2] == Pad2(d.hour) && time[2] == ':' && time[3..5] == Pad2(d.minute);
    assert time[5] == ':' && time[6..8] == Pad2(d.second);
    assert s[..4] == s[..10][..4];
    assert s[5..7] == s[..10][5..7] && s[8..10] == s[..10][8..10];
    assert s[11..13] == s[11..][..2] && s[14..16] == s[11..][3..5] && s[17..19] == s[11..][6..8];
  }

  /** Parsing a formatted clock reading gives that reading back, without its microseconds. */
  lemma ParseFormat(d: DateTime)
    requires IsClock(d)
    ensures ParseDate(Format(d)) == Some(Truncate(d))
  {
    var s := Format(d);
    FormatLayout(d);
    FieldOfPad2(s, 5, d.month);
    FieldOfPad2(s, 8, d.day);
    assert DayField(s, 8) == Some((d.day, 10));
    assert !Text.IsSpace(s[11]);
    assert SkipSpace(s, 11) == 11;
    assert SkipSpace(s, 10) == 11;
    FieldOfPad2(s, 11, d.hour);
    FieldOfPad2(s, 14, d.minute);
    FieldOfPad2(s, 17, d.second);
  }
}
