/**
  The month grid of the calendar page: which day numbers fill the cells of a
  month view, Sunday first, including the tail of the previous month and the
  start of the next one.
*/
module Calendar {
  import opened EcmaDate

  const ROWS: nat := 5
  const COLS: nat := 7
  /** The number of cells the grid is padded up to. */
  const CELLS: nat := ROWS * COLS

  /** One cell of the grid: a day number and whether it belongs to the month shown. */
  datatype DayInfo = DayInfo(day: int, isCurrent: bool)

  /** A month of a year; `month` is 0-based (0 = January). */
  datatype CalendarMonth = CalendarMonth(month: int, year: int)

  predicate ValidMonth(c: CalendarMonth) {
    0 <= c.month <= 11
  }

  function Max(a: int, b: int): int {
    if a < b then b else a
  }

  /** Number of days of a 0-based month. The source asks the host for the date
      of "day 0 of the following month"; this is the Gregorian month table,
      and `DaysInMonthIsDayZero` shows the two agree. */
  function DaysInMonth(month: int, year: int): (n: int)
    requires 0 <= month <= 11
    ensures 28 <= n <= 31
    ensures month == 1 ==> (n == 29 <==> IsLeap(MakeFullYear(year)))
    ensures month == 11 ==> n == 31
  {
    if month == 1 then (if IsLeap(MakeFullYear(year)) then 29 else 28)
    else if month == 3 || month == 5 || month == 8 || month == 10 then 30
    else 31
  }

  /** `new Date(year, month + 1, 0)` is the last day of `month`: the first of
      the next month (rolling into the next year after December) lies exactly
      `DaysInMonth` days after the first of this one, so the host's
      `getDate()` of day 0 of the next month is `DaysInMonth(month, year)`. */
  lemma {:induction false} DaysInMonthIsDayZero(month: int, year: int)
    requires 0 <= month <= 11
    ensures LocalDay(year, month + 1, 1) - LocalDay(year, month, 1) == DaysInMonth(month, year)
    ensures LocalDay(year, month + 1, 0) == LocalDay(year, month, DaysInMonth(month, year))
  {
    if month == 11 {
      DayZeroOfJanuary(year);
    } else {
      DayZeroWithinYear(month, year);
    }
  }

  /** `DaysInMonthIsDayZero` for a month before December. */
  lemma {:induction false} DayZeroWithinYear(month: int, year: int)
    requires 0 <= month <= 11 && month != 11
    ensures LocalDay(year, month + 1, 1) - LocalDay(year, month, 1) == DaysInMonth(month, year)
    ensures LocalDay(year, month + 1, 0) == LocalDay(year, month, DaysInMonth(month, year))
  {
    var y := MakeFullYear(year);
    MonthStartStep(month, year);
    MakeDayInYear(y, month, 1);
    MakeDayInYear(y, month, 0);
    MakeDayInYear(y, month, DaysInMonth(month, year));
    MakeDayInYear(y, month + 1, 1);
    MakeDayInYear(y, month + 1, 0);
  }

  /** `DaysInMonthIsDayZero` for December: month 12 is January of the next year. */
  lemma {:induction false} DayZeroOfJanuary(year: int)
    ensures LocalDay(year, 12, 1) - LocalDay(year, 11, 1) == DaysInMonth(11, year)
    ensures LocalDay(year, 12, 0) == LocalDay(year, 11, DaysInMonth(11, year))
  {
    var y := MakeFullYear(year);
    MonthStartStep(11, year);
    MakeDayInYear(y, 11, 1);
    MakeDayInYear(y, 11, 31);
    MakeDayMonthTwelve(y, 1);
    MakeDayMonthTwelve(y, 0);
    MakeDayInYear(y + 1, 0, 1);
    MakeDayInYear(y + 1, 0, 0);
    YearLength(y);
  }

  /** Consecutive month starts in the host's table are `DaysInMonth` apart
      (for December, the year's length closes the gap). */
  lemma MonthStartStep(month: int, year: int)
    requires 0 <= month <= 11
    ensures var leap := IsLeap(MakeFullYear(year));
            month < 11 ==> MonthStart(month + 1, leap) - MonthStart(month, leap) == DaysInMonth(month, year)
    ensures var leap := IsLeap(MakeFullYear(year));
            month == 11 ==> DaysInYear(MakeFullYear(year)) - MonthStart(month, leap) == DaysInMonth(month, year)
  {
  }

  /** A two-digit year is read as the matching year of the 1900s: its months
      have the same lengths and start on the same weekdays. */
  lemma TwoDigitYearsAre1900s(month: int, year: int)
    requires 0 <= month <= 11 && 0 <= year <= 99
    ensures DaysInMonth(month, year) == DaysInMonth(month, 1900 + year)
    ensures LocalDay(year, month, 1) == LocalDay(1900 + year, month, 1)
  {
  }

  /** Year 0 is a Gregorian leap year, yet its February has 28 days, because
      it is read as 1900. */
  lemma YearZeroFebruary()
    ensures IsLeap(0) && !IsLeap(1900)
    ensures DaysInMonth(1, 0) == 28
  {
  }

  /** Weekday (0 = Sunday) of the first day of a month. */
  function FirstWeekday(month: int, year: int): (w: int)
    requires 0 <= month <= 11
    ensures 0 <= w <= 6
  {
    WeekDay(LocalDay(year, month, 1))
  }

  /** Weekdays run on without a gap from one month into the next. */
  lemma {:induction false} FirstWeekdayOfNextMonth(month: int, year: int)
    requires 0 <= month <= 11
    ensures WeekDay(LocalDay(year, month + 1, 1)) == (FirstWeekday(month, year) + DaysInMonth(month, year)) % 7
  {
    DaysInMonthIsDayZero(month, year);
    ShiftWeekDay(LocalDay(year, month, 1), DaysInMonth(month, year));
  }

  lemma ShiftWeekDay(t: int, n: int)
    ensures WeekDay(t + n) == (WeekDay(t) + n) % 7
  {
  }

  /** The month before `c`: December of the previous year before January. */
  function PrevMonth(c: CalendarMonth): (p: CalendarMonth)
    requires ValidMonth(c)
    ensures ValidMonth(p)
    ensures p.year * 12 + p.month == c.year * 12 + c.month - 1
  {
    if c.month == 0 then CalendarMonth(11, c.year - 1) else CalendarMonth(c.month - 1, c.year)
  }

  /** `n` consecutive cells numbered `first`, `first + 1`, ... */
  function Run(first: int, n: nat, current: bool): (r: seq<DayInfo>)
    ensures |r| == n
    ensures forall k :: 0 <= k < n ==> r[k] == DayInfo(first + k, current)
  {
    if n == 0 then [] else Run(first, n - 1, current) + [DayInfo(first + n - 1, current)]
  }

  /** The grid of `month` of `year`: the previous month's last days, one for
      each weekday before the 1st (none when the 1st is a Sunday), then every
      day of the month, then next-month cells numbered
      from 1 until `CELLS` cells are filled. Padding is only ever added, so a
      month whose leading and own days exceed `CELLS` yields a longer grid. */
  function CalculateGrid(month: int, year: int): (g: seq<DayInfo>)
    requires 0 <= month <= 11
    ensures var lead, days := FirstWeekday(month, year), DaysInMonth(month, year);
            var prev := PrevMonth(CalendarMonth(month, year));
            var prevDays := DaysInMonth(prev.month, prev.year);
            && |g| == Max(CELLS, lead + days)
            && (forall i :: 0 <= i < lead ==> g[i] == DayInfo(prevDays - lead + 1 + i, false))
            && (forall i :: lead <= i < lead + days ==> g[i] == DayInfo(i - lead + 1, true))
            && (forall i :: lead + days <= i < |g| ==> g[i] == DayInfo(i - (lead + days) + 1, false))
  {
    Run(LeadStart(month, year), FirstWeekday(month, year), false)
    + Run(1, DaysInMonth(month, year), true)
    + Run(1, Padding(month, year), false)
  }

  /** The day number of the first leading cell: the previous month's last
      day, counted back over the leading cells. */
  function LeadStart(month: int, year: int): int
    requires 0 <= month <= 11
  {
    var prev := PrevMonth(CalendarMonth(month, year));
    DaysInMonth(prev.month, prev.year) - FirstWeekday(month, year) + 1
  }

  /** The number of next-month cells: what is missing up to `CELLS`, if anything. */
  function Padding(month: int, year: int): nat
    requires 0 <= month <= 11
  {
    var filled := FirstWeekday(month, year) + DaysInMonth(month, year);
    if filled < CELLS then CELLS - filled else 0
  }

  /** The day numbers of the cells that belong to the month shown, in grid order. */
  function CurrentDays(g: seq<DayInfo>): seq<int> {
    if |g| == 0 then []
    else (if g[0].isCurrent then [g[0].day] else []) + CurrentDays(g[1..])
  }

  lemma {:induction false} CurrentDaysAppend(a: seq<DayInfo>, b: seq<DayInfo>)
    ensures CurrentDays(a + b) == CurrentDays(a) + CurrentDays(b)
  {
    if |a| > 0 {
      var head := if a[0].isCurrent then [a[0].day] else [];
      assert (a + b)[0] == a[0];
      assert (a + b)[1..] == a[1..] + b;
      CurrentDaysAppend(a[1..], b);
      calc {
        CurrentDays(a + b);
        head + CurrentDays(a[1..] + b);
        head + (CurrentDays(a[1..]) + CurrentDays(b));
        (head + CurrentDays(a[1..])) + CurrentDays(b);
        CurrentDays(a) + CurrentDays(b);
      }
    } else {
      assert a + b == b;
    }
  }

  lemma {:induction false} CurrentDaysOfUniform(g: seq<DayInfo>, current: bool)
    requires forall k :: 0 <= k < |g| ==> g[k].isCurrent == current
    ensures CurrentDays(g) == if current then seq(|g|, k requires 0 <= k < |g| => g[k].day) else []
  {
    if |g| > 0 {
      CurrentDaysOfUniform(g[1..], current);
    }
  }

  /** The day numbers 1, 2, ..., n. */
  function OneTo(n: nat): seq<int> {
    seq(n, k => k + 1)
  }

  /** Of three runs, only the middle one is current; its days are 1..days. */
  lemma {:induction false} CurrentDaysOfRuns(first: int, lead: nat, days: nat, padding: nat)
    ensures CurrentDays(Run(first, lead, false) + Run(1, days, true) + Run(1, padding, false)) ==
            OneTo(days)
  {
    var a, b, c := Run(first, lead, false), Run(1, days, true), Run(1, padding, false);
    CurrentDaysAppend(a + b, c);
    CurrentDaysAppend(a, b);
    CurrentDaysOfUniform(a, false);
    CurrentDaysOfUniform(b, true);
    CurrentDaysOfUniform(c, false);
    assert seq(|b|, k requires 0 <= k < |b| => b[k].day) == OneTo(days);
  }

  /** The cells marked current are exactly the days 1..DaysInMonth, in order
      and with no gaps. */
  lemma {:induction false} GridCurrentDays(month: int, year: int)
    requires 0 <= month <= 11
    ensures CurrentDays(CalculateGrid(month, year)) == OneTo(DaysInMonth(month, year))
  {
    CurrentDaysOfRuns(LeadStart(month, year), FirstWeekday(month, year), DaysInMonth(month, year), Padding(month, year));
  }

  /** The leading cells are a strictly increasing, non-current run that ends at
      the last day of the previous month; there is one per weekday before the
      first of the month. */
  lemma GridLeadingRun(month: int, year: int)
    requires 0 <= month <= 11
    ensures var g, lead := CalculateGrid(month, year), FirstWeekday(month, year);
            var prev := PrevMonth(CalendarMonth(month, year));
            && (forall i :: 0 <= i < lead ==> !g[i].isCurrent)
            && (forall i, j :: 0 <= i < j < lead ==> g[i].day < g[j].day)
            && (lead > 0 ==> g[lead - 1].day == DaysInMonth(prev.month, prev.year))
            && (lead < |g| ==> g[lead] == DayInfo(1, true))
  {
  }

  /** The grid has exactly `CELLS` cells precisely when the leading and own
      days fit; otherwise it holds them all and no padding. */
  lemma GridLength(month: int, year: int)
    requires 0 <= month <= 11
    ensures var g, filled := CalculateGrid(month, year), FirstWeekday(month, year) + DaysInMonth(month, year);
            && (|g| == CELLS <==> filled <= CELLS)
            && (filled > CELLS ==> |g| == filled)
            && |g| <= 37
  {
  }

  /** Evaluates the weekday of a first of month from the day number of its
      year's 1 January. */
  lemma FirstWeekdayAt(month: int, year: int, yearStart: int)
    requires 0 <= month <= 11 && 99 < year
    requires DayFromYear(year) == yearStart
    ensures FirstWeekday(month, year) == WeekDay(yearStart + MonthStart(month, IsLeap(year)))
  {
    MakeDayInYear(year, month, 1);
  }

  /** 1 June 2025 was a Sunday, so the first Wednesday of June 2025 is the 4th. */
  lemma June2025StartsOnSunday()
    ensures FirstWeekday(5, 2025) == 0
  {
    FirstWeekdayAt(5, 2025, 20089);
  }

  /** March 2024 starts on a Friday: 5 leading cells and 31 days overflow the
      35-cell grid, which comes out one cell longer. */
  lemma GridOverflowsInMarch2024()
    ensures FirstWeekday(2, 2024) == 5
    ensures |CalculateGrid(2, 2024)| == 36
  {
    FirstWeekdayAt(2, 2024, 19723);
  }

  /** July 2023 starts on a Saturday: the grid has 37 cells, two more than
      the 5x7 table draws. */
  lemma GridOverflowsInJuly2023()
    ensures FirstWeekday(6, 2023) == 6
    ensures |CalculateGrid(6, 2023)| == 37
  {
    FirstWeekdayAt(6, 2023, 19358);
  }
}
