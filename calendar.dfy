/**
 * UTC calendar arithmetic of ECMAScript Date values (ECMA-262, section 21.4.1
 * "Overview of Date Objects and Definitions of Abstract Operations"): a time
 * value is a count of milliseconds since 1970-01-01T00:00:00Z in the
 * proleptic Gregorian calendar. Only non-negative time values are modelled,
 * since the expiry timestamps read from the vault are unsigned.
 */
module Calendar {

  const MsPerDay: nat := 86400000

  /** Largest magnitude of a valid time value (section 21.4.1.31 TimeClip); beyond it a Date is invalid. */
  const MaxTimeValue: nat := 8640000000000000

  /** Day(t) = floor(t / msPerDay). */
  function Day(t: nat): nat {
    t / MsPerDay
  }

  predicate InLeapYear(y: int) {
    y % 4 == 0 && (y % 100 != 0 || y % 400 == 0)
  }

  function DaysInYear(y: int): int {
    if InLeapYear(y) then 366 else 365
  }

  /** DayFromYear(y): the day number of the first day of year y. */
  function DayFromYear(y: int): int {
    365 * (y - 1970) + (y - 1969) / 4 - (y - 1901) / 100 + (y - 1601) / 400
  }

  /** Leap days counted through year y grow by one exactly in the years divisible by 4. */
  lemma Step4(y: int)
    ensures (y - 1968) / 4 - (y - 1969) / 4 == if y % 4 == 0 then 1 else 0
  {
    var q, r := y / 4, y % 4;
    assert y - 1968 == 4 * (q - 492) + r;
    if r == 0 {
      assert y - 1969 == 4 * (q - 493) + 3;
    } else {
      assert y - 1969 == 4 * (q - 492) + (r - 1);
    }
  }

  /** Century years are counted through year y, one in each year divisible by 100. */
  lemma Step100(y: int)
    ensures (y - 1900) / 100 - (y - 1901) / 100 == if y % 100 == 0 then 1 else 0
  {
    var q, r := y / 100, y % 100;
    assert y - 1900 == 100 * (q - 19) + r;
    if r == 0 {
      assert y - 1901 == 100 * (q - 20) + 99;
    } else {
      assert y - 1901 == 100 * (q - 19) + (r - 1);
    }
  }

  /** Quadricentennial years are counted through year y, one in each year divisible by 400. */
  lemma Step400(y: int)
    ensures (y - 1600) / 400 - (y - 1601) / 400 == if y % 400 == 0 then 1 else 0
  {
    var q, r := y / 400, y % 400;
    assert y - 1600 == 400 * (q - 4) + r;
    if r == 0 {
      assert y - 1601 == 400 * (q - 5) + 399;
    } else {
      assert y - 1601 == 400 * (q - 4) + (r - 1);
    }
  }

  /** The Gregorian divisors nest: 400 | y implies 100 | y, and 100 | y implies 4 | y. */
  lemma DivisorsNest(y: int)
    ensures y % 400 == 0 ==> y % 100 == 0
    ensures y % 100 == 0 ==> y % 4 == 0
  {
    if y % 400 == 0 {
      var k := y / 400;
      assert y == 100 * (4 * k);
    }
    if y % 100 == 0 {
      var k := y / 100;
      assert y == 4 * (25 * k);
    }
  }

  /** Each year occupies DaysInYear(y) consecutive day numbers. */
  lemma DayFromYearStep(y: int)
    ensures DayFromYear(y + 1) == DayFromYear(y) + DaysInYear(y)
  {
    Step4(y);
    Step100(y);
    Step400(y);
    DivisorsNest(y);
  }

  /** DayFromYear is strictly increasing. */
  lemma {:induction false} DayFromYearMonotone(a: int, b: int)
    requires a < b
    ensures DayFromYear(a + 1) <= DayFromYear(b)
    decreases b - a
  {
    if a + 1 < b {
      DayFromYearMonotone(a + 1, b);
      DayFromYearStep(a + 1);
    }
  }

  /** The year containing day d, searched upward from a year that starts no later than d. */
  function YearSearch(d: int, y: int): (r: int)
    requires DayFromYear(y) <= d
    ensures r >= y
    ensures DayFromYear(r) <= d < DayFromYear(r + 1)
    decreases d - DayFromYear(y)
  {
    DayFromYearStep(y);
    if DayFromYear(y + 1) <= d then YearSearch(d, y + 1) else y
  }

  /** At most one year contains a given day. */
  lemma YearUnique(d: int, a: int, b: int)
    requires DayFromYear(a) <= d < DayFromYear(a + 1)
    requires DayFromYear(b) <= d < DayFromYear(b + 1)
    ensures a == b
  {
    if a < b {
      DayFromYearMonotone(a, b);
    } else if b < a {
      DayFromYearMonotone(b, a);
    }
  }

  /**
   * YearFromTime, on day numbers: the largest y with DayFromYear(y) <= d,
   * that is, the one year whose days include d.
   */
  function YearFromDay(d: nat): (y: int)
    ensures y >= 1970
    ensures DayFromYear(y) <= d < DayFromYear(y + 1)
  {
    YearSearch(d, 1970)
  }

  /** DayWithinYear: the zero-based ordinal of d in its year. */
  function DayWithinYear(d: nat): (w: nat)
    ensures w < DaysInYear(YearFromDay(d))
  {
    var y := YearFromDay(d);
    DayFromYearStep(y);
    d - DayFromYear(y)
  }

  /** MonthFromTime: 0 for January through 11 for December. */
  function MonthFromDay(d: nat): (m: nat)
    ensures m < 12
  {
    var w := DayWithinYear(d);
    var l := if InLeapYear(YearFromDay(d)) then 1 else 0;
    if w < 31 then 0
    else if w < 59 + l then 1
    else if w < 90 + l then 2
    else if w < 120 + l then 3
    else if w < 151 + l then 4
    else if w < 181 + l then 5
    else if w < 212 + l then 6
    else if w < 243 + l then 7
    else if w < 273 + l then 8
    else if w < 304 + l then 9
    else if w < 334 + l then 10
    else 11
  }

  /** DateFromTime: the day of the month, counted from 1. */
  function DateFromDay(d: nat): int {
    var w := DayWithinYear(d);
    var l := if InLeapYear(YearFromDay(d)) then 1 else 0;
    match MonthFromDay(d)
    case 0 => w + 1
    case 1 => w - 30
    case 2 => w - 58 - l
    case 3 => w - 89 - l
    case 4 => w - 119 - l
    case 5 => w - 150 - l
    case 6 => w - 180 - l
    case 7 => w - 211 - l
    case 8 => w - 242 - l
    case 9 => w - 272 - l
    case 10 => w - 303 - l
    case _ => w - 333 - l
  }

  /** Cumulative day count before month m (0-based) in a year with or without a leap day: an independent table. */
  function MonthStart(m: nat, leap: bool): nat
    requires m < 12
  {
    [0, 31, 59, 90, 120, 151, 181, 212, 243, 273, 304, 334][m] + (if leap && m >= 2 then 1 else 0)
  }

  function DaysInMonth(m: nat, leap: bool): nat
    requires m < 12
  {
    [31, if leap then 29 else 28, 31, 30, 31, 30, 31, 31, 30, 31, 30, 31][m]
  }

  /**
   * The ECMA-262 month and date decompose the day of the year against the
   * month table: the day falls on date DateFromDay of month MonthFromDay,
   * and that date lies within the month's length.
   */
  lemma MonthDateDecompose(d: nat)
    ensures var leap := InLeapYear(YearFromDay(d));
      var m := MonthFromDay(d);
      1 <= DateFromDay(d) <= DaysInMonth(m, leap) &&
      DayWithinYear(d) == MonthStart(m, leap) + DateFromDay(d) - 1
  {
  }

  /** A calendar date in UTC: year, month 0..11, date 1..31. */
  datatype UtcDate = UtcDate(year: int, month: nat, date: nat)

  /** The UTC calendar date of a valid, non-negative time value (getUTCFullYear, getUTCMonth, getUTCDate). */
  function UtcDateOf(t: nat): (r: UtcDate)
    ensures r.year >= 1970 && r.month < 12 && 1 <= r.date <= 31
    ensures r.date <= DaysInMonth(r.month, InLeapYear(r.year))
    ensures Day(t) == DayFromYear(r.year) + MonthStart(r.month, InLeapYear(r.year)) + r.date - 1
  {
    var d := Day(t);
    MonthDateDecompose(d);
    UtcDate(YearFromDay(d), MonthFromDay(d), DateFromDay(d))
  }
}
