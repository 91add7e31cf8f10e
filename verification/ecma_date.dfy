/**
  The day arithmetic of the host's `Date` object, as ECMAScript defines it
  (ECMA-262, section 21.4.1 "Overview of Date Objects and Definitions of
  Abstract Operations"). Days are counted from 1970-01-01 (day 0), which was
  a Thursday. Only whole days are modelled: the calendar never looks at the
  time of day.
*/
module EcmaDate {

  /** Gregorian leap-year rule. */
  predicate IsLeap(y: int) {
    y % 4 == 0 && (y % 100 != 0 || y % 400 == 0)
  }

  /** DaysInYear (section 21.4.1.3), written as the standard's case cascade. */
  function DaysInYear(y: int): (n: int)
    ensures n == 365 || n == 366
    ensures n == 366 <==> IsLeap(y)
  {
    if y % 4 != 0 then 365
    else if y % 100 != 0 then 366
    else if y % 400 != 0 then 365
    else 366
  }

  /** DayFromYear (section 21.4.1.3): the day number of 1 January of year `y`.
      Dafny's `/` by a positive constant is the standard's floor division. */
  function DayFromYear(y: int): int {
    365 * (y - 1970) + Leaps4(y) - Leaps100(y) + Leaps400(y)
  }

  /** The three corrections of DayFromYear: `floor((y - 1969) / 4)`,
      `floor((y - 1901) / 100)` and `floor((y - 1601) / 400)`. */
  function Leaps4(y: int): int { (y - 1969) / 4 }
  function Leaps100(y: int): int { (y - 1901) / 100 }
  function Leaps400(y: int): int { (y - 1601) / 400 }

  /** Stepping floor division by `k` from `a - 1` to `a` adds one exactly when `k` divides `a`. */
  lemma {:induction false} FloorStep(a: int, k: int)
    requires k == 4 || k == 100 || k == 400
    ensures a / k - (a - 1) / k == if a % k == 0 then 1 else 0
  {
    var q, r := a / k, a % k;
    assert a == k * q + r && 0 <= r < k;
    if r == 0 {
      assert a - 1 == k * (q - 1) + (k - 1);
    } else {
      assert a - 1 == k * q + (r - 1);
    }
  }

  /** Each correction steps by one exactly on multiples of 4, 100 and 400. */
  lemma Step4(y: int)
    ensures Leaps4(y + 1) - Leaps4(y) == if y % 4 == 0 then 1 else 0
  {
    FloorStep(y - 1968, 4);
    assert (y - 1968) % 4 == y % 4;
  }

  lemma Step100(y: int)
    ensures Leaps100(y + 1) - Leaps100(y) == if y % 100 == 0 then 1 else 0
  {
    FloorStep(y - 1900, 100);
    assert (y - 1900) % 100 == y % 100;
  }

  lemma Step400(y: int)
    ensures Leaps400(y + 1) - Leaps400(y) == if y % 400 == 0 then 1 else 0
  {
    FloorStep(y - 1600, 400);
    assert (y - 1600) % 400 == y % 400;
  }

  /** Consecutive years start exactly `DaysInYear` days apart. */
  lemma {:induction false} YearLength(y: int)
    ensures DayFromYear(y + 1) - DayFromYear(y) == DaysInYear(y)
  {
    Step4(y);
    Step100(y);
    Step400(y);
    DivisibilityChain(y);
  }

  lemma DivisibilityChain(y: int)
    ensures y % 100 == 0 ==> y % 4 == 0
    ensures y % 400 == 0 ==> y % 100 == 0
  {
    if y % 100 == 0 {
      assert y == 4 * (25 * (y / 100));
    }
    if y % 400 == 0 {
      assert y == 100 * (4 * (y / 400));
    }
  }

  /** Days of a year before the first of month `m` (0 = January); the
      thresholds of MonthFromTime (section 21.4.1.6). */
  function MonthStart(m: int, leap: bool): (d: int)
    requires 0 <= m <= 11
    ensures 0 <= d <= 334 + (if leap then 1 else 0)
  {
    var l := if leap then 1 else 0;
    if m == 0 then 0
    else if m == 1 then 31
    else if m == 2 then 59 + l
    else if m == 3 then 90 + l
    else if m == 4 then 120 + l
    else if m == 5 then 151 + l
    else if m == 6 then 181 + l
    else if m == 7 then 212 + l
    else if m == 8 then 243 + l
    else if m == 9 then 273 + l
    else if m == 10 then 304 + l
    else 334 + l
  }

  /** MakeDay (section 21.4.1.28): the day number of `date` of `month` of
      `year`. A month outside 0..11 rolls into neighbouring years and a date
      outside the month rolls into neighbouring months. */
  function MakeDay(year: int, month: int, date: int): int {
    var ym := year + month / 12;
    var mn := month % 12;
    DayFromYear(ym) + MonthStart(mn, IsLeap(ym)) + date - 1
  }

  /** Within a year, MakeDay is the year start plus the month start plus the date. */
  lemma MakeDayInYear(year: int, month: int, date: int)
    requires 0 <= month <= 11
    ensures MakeDay(year, month, date) == DayFromYear(year) + MonthStart(month, IsLeap(year)) + date - 1
  {
    assert month / 12 == 0 && month % 12 == month;
  }

  /** Month 12 of a year is January of the next. */
  lemma MakeDayMonthTwelve(year: int, date: int)
    ensures MakeDay(year, 12, date) == MakeDay(year + 1, 0, date)
  {
    assert 12 / 12 == 1 && 12 % 12 == 0;
    assert 0 / 12 == 0 && 0 % 12 == 0;
  }

  /** WeekDay (section 21.4.1.7): 0 = Sunday .. 6 = Saturday. */
  function WeekDay(t: int): (w: int)
    ensures 0 <= w <= 6
  {
    (t + 4) % 7
  }

  /** The `Date` constructor reads a year in 0..99 as 1900..1999 (MakeFullYear,
      section 21.4.2.1). */
  function MakeFullYear(y: int): (full: int)
    ensures 0 <= y <= 99 ==> full == 1900 + y
    ensures (y < 0 || 99 < y) ==> full == y
  {
    if 0 <= y <= 99 then 1900 + y else y
  }

  /** The day denoted by `new Date(year, month, date)` in the host's local calendar. */
  function LocalDay(year: int, month: int, date: int): int {
    MakeDay(MakeFullYear(year), month, date)
  }
}
