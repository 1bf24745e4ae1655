/**
 * The calendar arithmetic the refresh relies on: Python's `datetime.date`
 * (proleptic Gregorian calendar, years 1 to 9999), the one-day step
 * `date + timedelta(days=1)` and the `strftime('%Y-%m-%d')` rendering, which
 * is the `full-date` form of section 5.6 of RFC 3339.
 */
module Calendar {
  import opened Wrappers

  datatype Date = Date(year: int, month: int, day: int)

  /** Python's `datetime.MINYEAR` and `datetime.MAXYEAR`. */
  const MinYear := 1
  const MaxYear := 9999
  /** The last date Python can represent, `datetime.date.max`. */
  const LastDate := Date(MaxYear, 12, 31)

  predicate IsLeap(y: int) {
    y % 4 == 0 && (y % 100 != 0 || y % 400 == 0)
  }

  function DaysInMonth(y: int, m: int): int
    requires 1 <= m <= 12
  {
    if m == 2 then (if IsLeap(y) then 29 else 28)
    else if m == 4 || m == 6 || m == 9 || m == 11 then 30
    else 31
  }

  /** The values a `datetime.date` object can hold. */
  predicate Valid(d: Date) {
    MinYear <= d.year <= MaxYear && 1 <= d.month <= 12 && 1 <= d.day <= DaysInMonth(d.year, d.month)
  }

  /** Days in the years before `y`, in closed form (Python's `_days_before_year`). */
  function DaysBeforeYear(y: int): int
    requires y >= 1
  {
    var p := y - 1;
    p * 365 + p / 4 - p / 100 + p / 400
  }

  /** Days in the months of year `y` before month `m` (Python's `_days_before_month`). */
  function DaysBeforeMonth(y: int, m: int): int
    requires 1 <= m <= 12
  {
    [0, 31, 59, 90, 120, 151, 181, 212, 243, 273, 304, 334][m - 1] + (if m > 2 && IsLeap(y) then 1 else 0)
  }

  /** The proleptic Gregorian ordinal, 0001-01-01 being day 1 (Python's `date.toordinal`). */
  function Ordinal(d: Date): (n: int)
    requires Valid(d)
    ensures n >= 1
  {
    DaysBeforeYear(d.year) + DaysBeforeMonth(d.year, d.month) + d.day
  }

  /**
   * `d + timedelta(days=1)`: the calendar successor of `d`, or None where Python
   * raises OverflowError because the result would lie past `date.max`.
   */
  function NextDay(d: Date): (r: Option<Date>)
    requires Valid(d)
    ensures r.None? <==> d == LastDate
    ensures r.Some? ==> Valid(r.value)
  {
    if d.day < DaysInMonth(d.year, d.month) then Some(Date(d.year, d.month, d.day + 1))
    else if d.month < 12 then Some(Date(d.year, d.month + 1, 1))
    else if d.year < MaxYear then Some(Date(d.year + 1, 1, 1))
    else None
  }

  /** A year holds 365 days, 366 in a leap year. */
  lemma DaysBeforeNextYear(y: int)
    requires y >= 1
    ensures DaysBeforeYear(y + 1) == DaysBeforeYear(y) + (if IsLeap(y) then 366 else 365)
  {
    assert y / 4 - (y - 1) / 4 == if y % 4 == 0 then 1 else 0;
    assert y / 100 - (y - 1) / 100 == if y % 100 == 0 then 1 else 0;
    assert y / 400 - (y - 1) / 400 == if y % 400 == 0 then 1 else 0;
  }

  /**
   * The successor NextDay computes is the date whose ordinal is one more, which
   * is how Python defines `date + timedelta(days=1)`.
   */
  lemma NextDayIsOrdinalSuccessor(d: Date)
    requires Valid(d) && d != LastDate
    ensures NextDay(d).Some? && Ordinal(NextDay(d).value) == Ordinal(d) + 1
    ensures forall e :: Valid(e) && Ordinal(e) == Ordinal(d) + 1 ==> e == NextDay(d).value
  {
    var t := NextDay(d).value;
    if d.day == DaysInMonth(d.year, d.month) && d.month == 12 {
      DaysBeforeNextYear(d.year);
    }
    forall e | Valid(e) && Ordinal(e) == Ordinal(d) + 1
      ensures e == t
    {
      if Before(e, t) {
        OrdinalIncreasing(e, t);
      } else if Before(t, e) {
        OrdinalIncreasing(t, e);
      }
    }
  }

  /**
   * LastDate carries Python's largest ordinal, 3652059, and no valid date has a
   * larger one: the successor of LastDate is out of range, as NextDay reports.
   */
  lemma LastDateHasLargestOrdinal(e: Date)
    requires Valid(e)
    ensures Ordinal(LastDate) == 3652059
    ensures Ordinal(e) <= Ordinal(LastDate)
  {
    if e != LastDate {
      OrdinalIncreasing(e, LastDate);
    }
  }

  /** `a` comes strictly before `b` in the calendar. */
  predicate Before(a: Date, b: Date) {
    a.year < b.year || (a.year == b.year && (a.month < b.month || (a.month == b.month && a.day < b.day)))
  }

  /** Ordinal is strictly increasing, hence one-to-one on valid dates. */
  lemma OrdinalIncreasing(a: Date, b: Date)
    requires Valid(a) && Valid(b) && Before(a, b)
    ensures Ordinal(a) < Ordinal(b)
  {
    if a.year < b.year {
      DaysBeforeNextYear(a.year);
    }
  }

  // ----- strftime('%Y-%m-%d') -----

  function Digit(n: int): char
    requires 0 <= n < 10
  {
    "0123456789"[n]
  }

  /** The last `width` decimal digits of `n`, zero-padded on the left. */
  function Pad(n: nat, width: nat): (s: string)
    ensures |s| == width
  {
    if width == 0 then "" else Pad(n / 10, width - 1) + [Digit(n % 10)]
  }

  function Pow10(w: nat): nat {
    if w == 0 then 1 else 10 * Pow10(w - 1)
  }

  predicate IsDigit(c: char) {
    '0' <= c <= '9'
  }

  /** The number a string of decimal digits spells. */
  ghost function DigitsValue(s: string): int
    requires forall i :: 0 <= i < |s| ==> IsDigit(s[i])
  {
    if s == [] then 0 else 10 * DigitsValue(s[..|s| - 1]) + (s[|s| - 1] as int - '0' as int)
  }

  /** Pad writes only digits, and they spell `n` back when `n` fits in `width` digits. */
  lemma {:induction false} PadSpellsNumber(n: nat, width: nat)
    requires n < Pow10(width)
    ensures forall i :: 0 <= i < width ==> IsDigit(Pad(n, width)[i])
    ensures DigitsValue(Pad(n, width)) == n
  {
    if width > 0 {
      PadSpellsNumber(n / 10, width - 1);
      var s := Pad(n, width);
      assert s[..|s| - 1] == Pad(n / 10, width - 1);
    }
  }

  /** `d.strftime('%Y-%m-%d')`: four-digit year, two-digit month and day. */
  function Format(d: Date): (s: string)
    requires Valid(d)
    ensures |s| == 10 && s[4] == '-' && s[7] == '-'
  {
    Pad(d.year, 4) + "-" + Pad(d.month, 2) + "-" + Pad(d.day, 2)
  }

  /**
   * Format yields an RFC 3339 full-date: ten characters, dashes at positions 4
   * and 7, digits elsewhere, spelling the year, month and day of `d`.
   */
  lemma FormatIsFullDate(d: Date)
    requires Valid(d)
    ensures var s := Format(d);
      |s| == 10 && s[4] == '-' && s[7] == '-'
      && (forall i :: 0 <= i < 10 && i != 4 && i != 7 ==> IsDigit(s[i]))
      && DigitsValue(s[0..4]) == d.year
      && DigitsValue(s[5..7]) == d.month
      && DigitsValue(s[8..10]) == d.day
  {
    var s := Format(d);
    assert Pow10(4) == 10000 && Pow10(2) == 100;
    PadSpellsNumber(d.year, 4);
    PadSpellsNumber(d.month, 2);
    PadSpellsNumber(d.day, 2);
    assert s[0..4] == Pad(d.year, 4);
    assert s[5..7] == Pad(d.month, 2);
    assert s[8..10] == Pad(d.day, 2);
  }

  /** Distinct dates format to distinct strings. */
  lemma FormatInjective(a: Date, b: Date)
    requires Valid(a) && Valid(b) && Format(a) == Format(b)
    ensures a == b
  {
    FormatIsFullDate(a);
    FormatIsFullDate(b);
  }

  /** Today and tomorrow render as two distinct ten-character strings. */
  lemma TodayTomorrowDistinct(d: Date)
    requires Valid(d) && d != LastDate
    ensures |Format(d)| == |Format(NextDay(d).value)| == 10
    ensures Format(d) != Format(NextDay(d).value)
  {
    var t := NextDay(d).value;
    FormatIsFullDate(d);
    FormatIsFullDate(t);
    NextDayIsOrdinalSuccessor(d);
    if Format(d) == Format(t) {
      FormatInjective(d, t);
    }
  }

  // ----- a rendered example -----

  lemma PadYear2024()
    ensures Pad(2024, 4) == "2024"
  {
    assert Pad(2, 1) == "2";
    assert Pad(20, 2) == "20";
    assert Pad(202, 3) == "202";
  }

  lemma PadOneAndTwo()
    ensures Pad(1, 2) == "01" && Pad(2, 2) == "02"
  {
    assert Pad(0, 1) == "0";
  }

  /** The first two days of 2024 render as RFC 3339 full-dates. */
  lemma NewYearFormats()
    ensures NextDay(Date(2024, 1, 1)) == Some(Date(2024, 1, 2))
    ensures Format(Date(2024, 1, 1)) == "2024-01-01"
    ensures Format(Date(2024, 1, 2)) == "2024-01-02"
  {
    PadYear2024();
    PadOneAndTwo();
    assert Format(Date(2024, 1, 1)) == "2024" + "-" + "01" + "-" + "01";
    assert Format(Date(2024, 1, 2)) == "2024" + "-" + "01" + "-" + "02";
  }
}
