/**
 * Dates as the portal handles them.  A calendar date is a day number counted
 * from 1970-01-01 (the value of `new Date("YYYY-MM-DD")` divided by one day);
 * an instant is a count of milliseconds since 1970-01-01T00:00:00Z (what
 * `Date.getTime()` returns).  All conversions are taken in UTC.
 */
module Calendar {
  import opened Text

  const MsPerDay: int := 86400000

  /** Days since 1970-01-01. */
  type Day = nat

  /** Milliseconds since 1970-01-01T00:00:00Z. */
  type Instant = int

  /** The instant at which a day begins (midnight UTC). */
  function DayStart(d: Day): Instant { d * MsPerDay }

  function Abs(x: int): nat { if x < 0 then -x else x }

  /** `Math.ceil(a / b)` for a non-negative numerator. */
  function CeilDiv(a: nat, b: nat): (r: nat)
    requires b > 0
    ensures r * b >= a && (r == 0 || (r - 1) * b < a)
  {
    (a + b - 1) / b
  }

  // ----- The Gregorian calendar from 1970 on -----

  predicate IsLeapYear(y: int) { y % 4 == 0 && (y % 100 != 0 || y % 400 == 0) }

  function DaysInYear(y: int): nat { if IsLeapYear(y) then 366 else 365 }

  function DaysInMonth(y: int, m: int): nat
    requires 1 <= m <= 12
  {
    if m == 2 then (if IsLeapYear(y) then 29 else 28)
    else if m == 4 || m == 6 || m == 9 || m == 11 then 30
    else 31
  }

  /** Days of year `y` that lie before the first of month `m`. */
  function DaysBeforeMonth(y: int, m: int): nat
    requires 1 <= m <= 12
  {
    [0, 31, 59, 90, 120, 151, 181, 212, 243, 273, 304, 334][m - 1]
      + (if m > 2 && IsLeapYear(y) then 1 else 0)
  }

  lemma DaysBeforeNextMonth(y: int, m: int)
    requires 1 <= m <= 12
    ensures m < 12 ==> DaysBeforeMonth(y, m + 1) == DaysBeforeMonth(y, m) + DaysInMonth(y, m)
    ensures m == 12 ==> DaysBeforeMonth(y, m) + DaysInMonth(y, m) == DaysInYear(y)
  {
  }

  /** Days from 1970-01-01 to the first of January of year `y`. */
  function DaysBeforeYear(y: int): nat
    requires y >= 1970
    decreases y - 1970
  {
    if y == 1970 then 0 else DaysBeforeYear(y - 1) + DaysInYear(y - 1)
  }

  lemma {:induction false} DaysBeforeYearGrows(y: int, z: int)
    requires 1970 <= y < z
    ensures DaysBeforeYear(y) + DaysInYear(y) <= DaysBeforeYear(z)
    decreases z - y
  {
    if z > y + 1 {
      DaysBeforeYearGrows(y, z - 1);
    }
  }

  lemma {:induction false} DaysBeforeMonthGrows(y: int, m: int, n: int)
    requires 1 <= m < n <= 12
    ensures DaysBeforeMonth(y, m) + DaysInMonth(y, m) <= DaysBeforeMonth(y, n)
    decreases n - m
  {
    DaysBeforeNextMonth(y, m);
    if n > m + 1 {
      DaysBeforeNextMonth(y, m + 1);
      DaysBeforeMonthGrows(y, m + 1, n);
    }
  }

  datatype Civil = Civil(year: int, month: int, day: int)

  predicate ValidCivil(c: Civil) {
    c.year >= 1970 && 1 <= c.month <= 12 && 1 <= c.day <= DaysInMonth(c.year, c.month)
  }

  /** The day number of a calendar date. */
  function FromCivil(c: Civil): Day
    requires ValidCivil(c)
  {
    DaysBeforeYear(c.year) + DaysBeforeMonth(c.year, c.month) + c.day - 1
  }

  /** Splits `n` days counted from January 1st of `y` into a year and a day of that year. */
  function SplitYear(n: nat, y: int): (r: (int, nat))
    requires y >= 1970
    ensures r.0 >= y && r.1 < DaysInYear(r.0)
    ensures DaysBeforeYear(r.0) + r.1 == DaysBeforeYear(y) + n
    decreases n
  {
    if n < DaysInYear(y) then (y, n) else SplitYear(n - DaysInYear(y), y + 1)
  }

  /** Splits day `rem` of year `y`, counted from the first of month `m`, into a month and a day of month. */
  function SplitMonth(rem: nat, y: int, m: int): (r: (int, int))
    requires 1 <= m <= 12 && DaysBeforeMonth(y, m) + rem < DaysInYear(y)
    ensures m <= r.0 <= 12 && 1 <= r.1 <= DaysInMonth(y, r.0)
    ensures DaysBeforeMonth(y, r.0) + r.1 - 1 == DaysBeforeMonth(y, m) + rem
    decreases 12 - m
  {
    DaysBeforeNextMonth(y, m);
    if m == 12 || rem < DaysInMonth(y, m) then (m, rem + 1)
    else SplitMonth(rem - DaysInMonth(y, m), y, m + 1)
  }

  /** The calendar date of a day number; `FromCivil` undoes it. */
  function ToCivil(n: Day): (c: Civil)
    ensures ValidCivil(c) && FromCivil(c) == n
  {
    var (y, doy) := SplitYear(n, 1970);
    var (m, d) := SplitMonth(doy, y, 1);
    Civil(y, m, d)
  }

  /** Zero-based day of the year of day `n`. */
  function DayOfYear(n: Day): (doy: nat)
    ensures doy <= n && doy < DaysInYear(ToCivil(n).year)
    ensures n - doy == DaysBeforeYear(ToCivil(n).year)
  {
    SplitYear(n, 1970).1
  }

  /** Later days never fall in an earlier year. */
  lemma ToCivilYearGrows(a: Day, b: Day)
    requires a <= b
    ensures ToCivil(a).year <= ToCivil(b).year
  {
    var ya, yb := ToCivil(a).year, ToCivil(b).year;
    var da, db := DayOfYear(a), DayOfYear(b);
    if yb < ya {
      DaysBeforeYearGrows(yb, ya);
    }
  }

  lemma {:induction false} YearSplitUnique(y1: int, d1: nat, y2: int, d2: nat)
    requires y1 >= 1970 && y2 >= 1970 && d1 < DaysInYear(y1) && d2 < DaysInYear(y2)
    requires DaysBeforeYear(y1) + d1 == DaysBeforeYear(y2) + d2
    ensures y1 == y2 && d1 == d2
  {
    if y1 < y2 {
      DaysBeforeYearGrows(y1, y2);
    } else if y2 < y1 {
      DaysBeforeYearGrows(y2, y1);
    }
  }

  lemma {:induction false} MonthSplitUnique(y: int, m1: int, d1: int, m2: int, d2: int)
    requires 1 <= m1 <= 12 && 1 <= m2 <= 12
    requires 1 <= d1 <= DaysInMonth(y, m1) && 1 <= d2 <= DaysInMonth(y, m2)
    requires DaysBeforeMonth(y, m1) + d1 == DaysBeforeMonth(y, m2) + d2
    ensures m1 == m2 && d1 == d2
  {
    if m1 < m2 {
      DaysBeforeMonthGrows(y, m1, m2);
    } else if m2 < m1 {
      DaysBeforeMonthGrows(y, m2, m1);
    }
  }

  /** Every valid calendar date is the date of its own day number. */
  lemma ToCivilFromCivil(c: Civil)
    requires ValidCivil(c)
    ensures ToCivil(FromCivil(c)) == c
  {
    var n := FromCivil(c);
    var r := ToCivil(n);
    DaysBeforeNextMonth(c.year, c.month);
    if c.month < 12 {
      DaysBeforeMonthGrows(c.year, c.month, 12);
    }
    DaysBeforeNextMonth(c.year, 12);
    YearSplitUnique(r.year, DaysBeforeMonth(r.year, r.month) + r.day - 1,
                    c.year, DaysBeforeMonth(c.year, c.month) + c.day - 1);
    MonthSplitUnique(c.year, r.month, r.day, c.month, c.day);
  }

  /** `Date.getDay()`: 0 is Sunday; 1970-01-01 was a Thursday. */
  function Weekday(n: Day): (w: nat)
    ensures w < 7 && (n + 4 - w) % 7 == 0
  {
    (n + 4) % 7
  }

  /**
   * The portal's own week numbering: `ceil((daysSinceJan1 + weekdayOfJan1 + 1) / 7)`,
   * where the weekday of January 1st counts from Sunday.
   */
  function WeekNumber(n: Day): (w: nat)
    ensures 1 <= w <= 54
  {
    var doy := DayOfYear(n);
    var x := doy + Weekday(n - doy) + 1;
    assert 1 <= x <= 372;
    CeilDiv(x, 7)
  }

  /** January 1st lies in week 1, and each later day is in the same week as the day before or the next one. */
  lemma WeekNumberSteps(n: Day)
    ensures DayOfYear(n) == 0 ==> WeekNumber(n) == 1
    ensures DayOfYear(n) > 0 ==>
      WeekNumber(n) == WeekNumber(n - 1) || WeekNumber(n) == WeekNumber(n - 1) + 1
  {
    if DayOfYear(n) > 0 {
      var c := ToCivil(n);
      var doy := DayOfYear(n);
      var p := n - 1;
      assert DaysBeforeYear(c.year) + (doy - 1) == p;
      var (y', d') := SplitYear(p, 1970);
      YearSplitUnique(y', d', c.year, doy - 1);
      assert DayOfYear(p) == doy - 1;
      assert p - DayOfYear(p) == n - doy;
    }
  }

  /** The `toLocaleDateString('en-US', { month: 'long' })` names. */
  function MonthName(m: int): (name: string)
    requires 1 <= m <= 12
    ensures |name| >= 3 && AllLetters(name)
  {
    ["January", "February", "March", "April", "May", "June", "July",
     "August", "September", "October", "November", "December"][m - 1]
  }

  /** `Week ${weekNumber} - ${monthName} - ${year}` for the date `n`. */
  function WeekTitle(n: Day): (t: string)
    ensures StartsWith(t, "Week ") && StartsWith(t[5..], NatStr(WeekNumber(n)) + " - ")
  {
    var c := ToCivil(n);
    var week := NatStr(WeekNumber(n));
    var tail := " - " + (MonthName(c.month) + (" - " + NatStr(c.year)));
    var t := "Week " + (week + tail);
    assert t[5..] == week + tail;
    assert (week + tail)[..|week| + 3] == week + " - ";
    t
  }

  // ----- ISO-8601 date strings -----

  /** The first ten characters of `toISOString()`: `YYYY-MM-DD`. */
  function FormatIsoDate(n: Day): (s: string)
    ensures |s| == 10 && s[4] == '-' && s[7] == '-'
    ensures AllDigits(s[..4]) && AllDigits(s[5..7]) && AllDigits(s[8..])
  {
    var c := ToCivil(n);
    var s := FixedDigits(c.year, 4) + "-" + FixedDigits(c.month, 2) + "-" + FixedDigits(c.day, 2);
    assert s[..4] == FixedDigits(c.year, 4) && s[5..7] == FixedDigits(c.month, 2) && s[8..] == FixedDigits(c.day, 2);
    s
  }

  /**
   * `new Date(s)` for a date-only string, restricted to the strict form
   * `YYYY-MM-DD` naming a real calendar date: the day number, or `None` for
   * every other string, including some that JavaScript engines accept.
   */
  function ParseIsoDate(s: string): (r: Option<Day>)
    ensures r.Some? ==> |s| == 10
  {
    if |s| == 10 && s[4] == '-' && s[7] == '-'
       && AllDigits(s[..4]) && AllDigits(s[5..7]) && AllDigits(s[8..])
    then
      var c := Civil(DigitsValue(s[..4]), DigitsValue(s[5..7]), DigitsValue(s[8..]));
      if ValidCivil(c) then Some(FromCivil(c))
      else None
    else None
  }

  /** `YYYY-MM-DD` is parsed field by field. */
  lemma ParseIsoPieces(ys: string, ms: string, ds: string)
    requires |ys| == 4 && |ms| == 2 && |ds| == 2
    requires AllDigits(ys) && AllDigits(ms) && AllDigits(ds)
    ensures var s := ys + "-" + ms + "-" + ds;
      var c := Civil(DigitsValue(ys), DigitsValue(ms), DigitsValue(ds));
      ParseIsoDate(s) == if ValidCivil(c) then Some(FromCivil(c)) else None
  {
    var s := ys + "-" + ms + "-" + ds;
    assert s[..4] == ys && s[5..7] == ms && s[8..] == ds;
  }

  /** Formatting then parsing gives back the day, for every date from 1970 through 9999. */
  lemma ParseFormatIsoDate(c: Civil)
    requires ValidCivil(c) && c.year <= 9999
    ensures ParseIsoDate(FormatIsoDate(FromCivil(c))) == Some(FromCivil(c))
  {
    ToCivilFromCivil(c);
    var ys, ms, ds := FixedDigits(c.year, 4), FixedDigits(c.month, 2), FixedDigits(c.day, 2);
    FixedDigitsValue(c.year, 4);
    FixedDigitsValue(c.month, 2);
    FixedDigitsValue(c.day, 2);
    ParseIsoPieces(ys, ms, ds);
  }

  /** Parsing then formatting gives back the accepted string. */
  lemma FormatParseIsoDate(s: string)
    requires ParseIsoDate(s).Some?
    ensures FormatIsoDate(ParseIsoDate(s).value) == s
  {
    var ys, ms, ds := s[..4], s[5..7], s[8..];
    var c := Civil(DigitsValue(ys), DigitsValue(ms), DigitsValue(ds));
    assert s == ys + "-" + ms + "-" + ds;
    ParseIsoPieces(ys, ms, ds);
    ToCivilFromCivil(c);
    ValueFixedDigits(ys);
    ValueFixedDigits(ms);
    ValueFixedDigits(ds);
  }

  /** A date read from `YYYY-MM-DD` has a four-digit year. */
  lemma ParsedIsoYear(s: string)
    requires ParseIsoDate(s).Some?
    ensures ToCivil(ParseIsoDate(s).value).year <= 9999
  {
    var ys, ms, ds := s[..4], s[5..7], s[8..];
    var c := Civil(DigitsValue(ys), DigitsValue(ms), DigitsValue(ds));
    assert s == ys + "-" + ms + "-" + ds;
    ParseIsoPieces(ys, ms, ds);
    ToCivilFromCivil(c);
    assert Pow10(4) == 10000;
  }

  /** The time part `JSON.stringify(new Date("YYYY-MM-DD"))` carries. */
  const MidnightSuffix: string := "T00:00:00.000Z"

  /**
   * `new Date(s)` for the date strings a request body carries: a date-only
   * string, or a full timestamp at midnight UTC.  Other timestamps are
   * outside the model and yield `None`.
   */
  function ParseDateText(s: string): (r: Option<Day>)
    ensures |s| == 10 ==> r == ParseIsoDate(s)
    ensures r.Some? ==> |s| == 10 || (|s| == 24 && s[10..] == MidnightSuffix)
  {
    if |s| == 10 then ParseIsoDate(s)
    else if |s| == 24 && s[10..] == MidnightSuffix then ParseIsoDate(s[..10])
    else None
  }

  /** `new Date("YYYY-MM-DD").toISOString()` */
  function TimestampText(n: Day): string
  {
    FormatIsoDate(n) + MidnightSuffix
  }

  /** A timestamp produced from a day is read back as that day, for every date from 1970 through 9999. */
  lemma ParseTimestampText(c: Civil)
    requires ValidCivil(c) && c.year <= 9999
    ensures ParseDateText(TimestampText(FromCivil(c))) == Some(FromCivil(c))
  {
    var n := FromCivil(c);
    var t := TimestampText(n);
    assert t[..10] == FormatIsoDate(n) && t[10..] == MidnightSuffix;
    ParseFormatIsoDate(c);
  }

  // ----- Durations -----

  /** `Math.ceil(Math.abs(end - start) / (1000 * 60 * 60 * 24)) + 1` */
  function InclusiveDays(start: Instant, end: Instant): (d: nat)
    ensures d >= 1 && (d == 1 <==> start == end)
    ensures Abs(end - start) <= (d - 1) * MsPerDay
    ensures d > 1 ==> (d - 2) * MsPerDay < Abs(end - start)
  {
    CeilDiv(Abs(end - start), MsPerDay) + 1
  }

  /** The duration is symmetric in its two dates and is at least one day. */
  lemma InclusiveDaysSymmetric(start: Instant, end: Instant)
    ensures InclusiveDays(start, end) == InclusiveDays(end, start)
    ensures InclusiveDays(start, end) >= 1
    ensures start == end ==> InclusiveDays(start, end) == 1
  {
  }

  /** For two calendar dates the duration counts both ends: `|end - start| + 1` days. */
  lemma InclusiveDaysOfDays(start: Day, end: Day)
    ensures InclusiveDays(DayStart(start), DayStart(end)) == Abs(end - start) + 1
  {
    var k := Abs(end - start);
    assert Abs(DayStart(end) - DayStart(start)) == k * MsPerDay;
  }

  /** A week that ends six days after it starts lasts seven days. */
  lemma WeekLastsSevenDays(start: Day)
    ensures InclusiveDays(DayStart(start), DayStart(start + 6)) == 7
  {
    InclusiveDaysOfDays(start, start + 6);
  }
}
