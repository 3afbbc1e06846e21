/** The date-recurrence helpers, on the proleptic Gregorian calendar of years 1 to 9999. */
module Calendar {

  datatype Date = Date(year: int, month: int, day: int)

  predicate Leap(y: int) { y % 4 == 0 && (y % 100 != 0 || y % 400 == 0) }

  function DaysIn(y: int, m: int): int {
    if m == 2 then (if Leap(y) then 29 else 28) else if m == 4 || m == 6 || m == 9 || m == 11 then 30 else 31
  }

  predicate Valid(d: Date) { 1 <= d.year <= 9999 && 1 <= d.month <= 12 && 1 <= d.day <= DaysIn(d.year, d.month) }

  type Day = d: Date | Valid(d) witness Date(1, 1, 1)

  const MAX_DATE := Date(9999, 12, 31)

  /** Dates compare as (year, month, day). */
  predicate Before(a: Date, b: Date) {
    a.year < b.year || (a.year == b.year && (a.month < b.month || (a.month == b.month && a.day < b.day)))
  }

  predicate UpTo(a: Date, b: Date) { a == b || Before(a, b) }

  // Ordinals and weekdays ----------------------------------------------------------------

  function DaysBeforeYear(y: int): int { (y - 1) * 365 + (y - 1) / 4 - (y - 1) / 100 + (y - 1) / 400 }

  function DaysBeforeMonth(y: int, m: int): int {
    if m <= 1 then 0 else DaysBeforeMonth(y, m - 1) + DaysIn(y, m - 1)
  }

  function Ordinal(d: Date): int { DaysBeforeYear(d.year) + DaysBeforeMonth(d.year, d.month) + d.day }

  /** Monday is 0. */
  function Weekday(d: Date): int { (Ordinal(d) + 6) % 7 }

  predicate Workday(d: Date) { Weekday(d) < 5 }

  lemma YearLength(y: int)
    ensures DaysBeforeYear(y + 1) == DaysBeforeYear(y) + if Leap(y) then 366 else 365
  {
    assert y / 4 == (y - 1) / 4 + if y % 4 == 0 then 1 else 0;
    assert y / 100 == (y - 1) / 100 + if y % 100 == 0 then 1 else 0;
    assert y / 400 == (y - 1) / 400 + if y % 400 == 0 then 1 else 0;
  }

  lemma MonthsOfYear(y: int)
    ensures DaysBeforeMonth(y, 12) == if Leap(y) then 335 else 334
  {
    hide Leap;
    assert DaysBeforeMonth(y, 2) == 31;
    assert DaysBeforeMonth(y, 3) == if Leap(y) then 60 else 59;
    assert DaysBeforeMonth(y, 4) == if Leap(y) then 91 else 90;
    assert DaysBeforeMonth(y, 5) == if Leap(y) then 121 else 120;
    assert DaysBeforeMonth(y, 6) == if Leap(y) then 152 else 151;
    assert DaysBeforeMonth(y, 7) == if Leap(y) then 182 else 181;
    assert DaysBeforeMonth(y, 8) == if Leap(y) then 213 else 212;
    assert DaysBeforeMonth(y, 9) == if Leap(y) then 244 else 243;
    assert DaysBeforeMonth(y, 10) == if Leap(y) then 274 else 273;
  }

  lemma {:induction false} MonthsGrow(y: int, m: int, n: int)
    requires 1 <= m < n
    ensures DaysBeforeMonth(y, m) + DaysIn(y, m) <= DaysBeforeMonth(y, n)
    decreases n
  {
    if m < n - 1 { MonthsGrow(y, m, n - 1); }
  }

  lemma {:induction false} YearsGrow(y: int, z: int)
    requires y <= z
    ensures DaysBeforeYear(y) <= DaysBeforeYear(z)
    decreases z - y
  {
    if y < z {
      YearsGrow(y, z - 1);
      YearLength(z - 1);
    }
  }

  lemma OrdinalInYear(d: Day)
    ensures DaysBeforeYear(d.year) < Ordinal(d) <= DaysBeforeYear(d.year + 1)
  {
    hide DaysBeforeYear;
    YearLength(d.year);
    MonthsOfYear(d.year);
    if d.month < 12 { MonthsGrow(d.year, d.month, 12); }
    MonthsPositive(d.year, d.month);
  }

  lemma {:induction false} MonthsPositive(y: int, m: int)
    requires m >= 1
    ensures DaysBeforeMonth(y, m) >= 0
  {
    if m > 1 { MonthsPositive(y, m - 1); }
  }

  /** Ordinals order dates as the calendar does. */
  lemma OrdinalOrders(a: Day, b: Day)
    ensures Ordinal(a) < Ordinal(b) <==> Before(a, b)
    ensures Ordinal(a) == Ordinal(b) <==> a == b
  {
    if Before(a, b) {
      OrdinalGrows(a, b);
    } else if a != b {
      OrdinalGrows(b, a);
    }
  }

  lemma OrdinalGrows(a: Day, b: Day)
    requires Before(a, b)
    ensures Ordinal(a) < Ordinal(b)
  {
    hide DaysBeforeYear, DaysBeforeMonth;
    if a.year < b.year {
      OrdinalInYear(a);
      OrdinalInYear(b);
      YearsGrow(a.year + 1, b.year);
    } else if a.month < b.month {
      MonthsGrow(a.year, a.month, b.month);
    }
  }

  /** d + timedelta(days=1) */
  function NextDay(d: Day): Day
    requires d != MAX_DATE
  {
    if d.day < DaysIn(d.year, d.month) then Date(d.year, d.month, d.day + 1)
    else if d.month < 12 then Date(d.year, d.month + 1, 1)
    else Date(d.year + 1, 1, 1)
  }

  lemma NextDayExact(d: Day)
    requires d != MAX_DATE
    ensures Ordinal(NextDay(d)) == Ordinal(d) + 1
    ensures Weekday(NextDay(d)) == (Weekday(d) + 1) % 7
  {
    hide DaysBeforeYear;
    YearLength(d.year);
    MonthsOfYear(d.year);
  }

  lemma NothingBetween(d: Day, e: Day)
    requires d != MAX_DATE
    ensures UpTo(e, d) || UpTo(NextDay(d), e)
    ensures Before(d, NextDay(d))
  {
    hide Ordinal;
    NextDayExact(d);
    OrdinalOrders(d, e);
    OrdinalOrders(e, d);
    OrdinalOrders(NextDay(d), e);
    OrdinalOrders(d, NextDay(d));
  }

  lemma MaxIsLast(d: Day)
    ensures UpTo(d, MAX_DATE)
  {}

  // Workdays and Mondays ---------------------------------------------------------------------

  ghost predicate Ascending(days: seq<Date>) { forall i, j :: 0 <= i < j < |days| ==> Before(days[i], days[j]) }

  /** The valid dates from start up to end that satisfy p, in order. */
  ghost predicate Lists(days: seq<Date>, start: Day, end: Day, p: Date -> bool) {
    && Ascending(days)
    && forall d :: d in days <==> Valid(d) && UpTo(start, d) && UpTo(d, end) && p(d)
  }

  /** The same, for the days before `limit` only. */
  ghost predicate ListsBefore(days: seq<Date>, start: Day, end: Day, p: Date -> bool, limit: Date) {
    && Ascending(days)
    && forall d :: d in days <==> Valid(d) && UpTo(start, d) && UpTo(d, end) && p(d) && Before(d, limit)
  }

  lemma ListsNext(days: seq<Date>, start: Day, end: Day, p: Date -> bool, current: Day)
    requires ListsBefore(days, start, end, p, current) && UpTo(start, current) && UpTo(current, end)
    ensures var more := if p(current) then days + [current] else days;
            && (current == MAX_DATE ==> Lists(more, start, end, p))
            && (current != MAX_DATE ==> ListsBefore(more, start, end, p, NextDay(current)))
  {
    hide Valid, NextDay;
    var more := if p(current) then days + [current] else days;
    forall i | 0 <= i < |days| ensures Before(days[i], current) { assert days[i] in days; }
    assert forall d :: d in more <==> d in days || (d == current && p(d));
    if current == MAX_DATE {
      forall d: Day ensures Before(d, current) || d == current { MaxIsLast(d); }
    } else {
      forall d: Day ensures Before(d, NextDay(current)) <==> Before(d, current) || d == current {
        NothingBetween(current, d);
      }
    }
  }

  lemma ListsNone(start: Day, end: Day, p: Date -> bool)
    ensures ListsBefore([], start, end, p, start)
  {}

  lemma ListsAll(days: seq<Date>, start: Day, end: Day, p: Date -> bool, current: Day)
    requires ListsBefore(days, start, end, p, current) && Before(end, current)
    ensures Lists(days, start, end, p)
  {}

  function IsWorkday(): Date -> bool { (d: Date) => Workday(d) }

  function IsMonday(): Date -> bool { (d: Date) => Weekday(d) == 0 }

  /**
   Every Monday-to-Friday date of the range, in order. Stepping past the last date of
   the calendar raises, after everything has been yielded: exactly when a non-empty
   range ends there.
  */
  method WorkdaysBetween(start: Day, end: Day) returns (days: seq<Date>, overflow: bool)
    ensures Lists(days, start, end, IsWorkday())
    ensures overflow <==> end == MAX_DATE
  {
    hide Weekday, Valid, NextDay, Ordinal, Ascending;
    var current: Day := start;
    days := [];
    MaxIsLast(start);
    MaxIsLast(end);
    ListsNone(start, end, IsWorkday());
    while UpTo(current, end)
      invariant UpTo(start, current)
      invariant ListsBefore(days, start, end, IsWorkday(), current)
      invariant end == MAX_DATE ==> UpTo(current, end)
      decreases Ordinal(end) - Ordinal(current)
    {
      ListsNext(days, start, end, IsWorkday(), current);
      if Weekday(current) < 5 { days := days + [current]; }
      if current == MAX_DATE {
        return days, true;
      }
      NothingBetween(current, start);
      NextDayExact(current);
      OrdinalOrders(current, end);
      current := NextDay(current);
      MaxIsLast(current);
    }
    ListsAll(days, start, end, IsWorkday(), current);
    overflow := false;
  }

  /** The same loop for Mondays. */
  method MondaysBetween(start: Day, end: Day) returns (days: seq<Date>, overflow: bool)
    ensures Lists(days, start, end, IsMonday())
    ensures overflow <==> end == MAX_DATE
  {
    hide Weekday, Valid, NextDay, Ordinal, Ascending;
    var current: Day := start;
    days := [];
    MaxIsLast(start);
    MaxIsLast(end);
    ListsNone(start, end, IsMonday());
    while UpTo(current, end)
      invariant UpTo(start, current)
      invariant ListsBefore(days, start, end, IsMonday(), current)
      invariant end == MAX_DATE ==> UpTo(current, end)
      decreases Ordinal(end) - Ordinal(current)
    {
      ListsNext(days, start, end, IsMonday(), current);
      if Weekday(current) == 0 { days := days + [current]; }
      if current == MAX_DATE {
        return days, true;
      }
      NothingBetween(current, start);
      NextDayExact(current);
      OrdinalOrders(current, end);
      current := NextDay(current);
      MaxIsLast(current);
    }
    ListsAll(days, start, end, IsMonday(), current);
    overflow := false;
  }

  // Month ends ---------------------------------------------------------------------------------

  /** Months counted from year 0. */
  function MonthIndex(year: int, month: int): int { 12 * year + month - 1 }

  function IndexOfMonth(d: Date): int { MonthIndex(d.year, d.month) }

  method MonthsBetween(start: Day, end: Day) returns (months: seq<(int, int)>)
    ensures |months| == if IndexOfMonth(start) <= IndexOfMonth(end) then IndexOfMonth(end) - IndexOfMonth(start) + 1 else 0
    ensures forall i :: 0 <= i < |months| ==>
              && 1 <= months[i].0 <= 9999 && 1 <= months[i].1 <= 12
              && MonthIndex(months[i].0, months[i].1) == IndexOfMonth(start) + i
  {
    var year, month := start.year, start.month;
    months := [];
    while year < end.year || (year == end.year && month <= end.month)
      invariant 1 <= year && 1 <= month <= 12
      invariant MonthIndex(year, month) == IndexOfMonth(start) + |months|
      invariant |months| > 0 ==> MonthIndex(year, month) <= IndexOfMonth(end) + 1
      invariant forall i :: 0 <= i < |months| ==>
                  && 1 <= months[i].0 <= 9999 && 1 <= months[i].1 <= 12
                  && MonthIndex(months[i].0, months[i].1) == IndexOfMonth(start) + i
      decreases IndexOfMonth(end) + 1 - MonthIndex(year, month)
    {
      months := months + [(year, month)];
      month := month + 1;
      if month > 12 {
        month := 1;
        year := year + 1;
      }
    }
  }

  /** A workday with no later workday in its month. */
  ghost predicate MonthEnd(d: Date) {
    && Valid(d) && Workday(d)
    && forall e: Date :: Valid(e) && e.year == d.year && e.month == d.month && e.day > d.day ==> !Workday(e)
  }

  lemma WeekdayShift(y: int, m: int, day: int)
    ensures Weekday(Date(y, m, day)) == (Weekday(Date(y, m, day - 1)) + 1) % 7
  {
    hide DaysBeforeYear, DaysBeforeMonth;
    assert Ordinal(Date(y, m, day)) == Ordinal(Date(y, m, day - 1)) + 1;
  }

  /** Steps back from the last day, two days at most and never out of the month. */
  method LastWorkdayOfMonth(year: int, month: int) returns (candidate: Day)
    requires 1 <= year <= 9999 && 1 <= month <= 12
    ensures candidate.year == year && candidate.month == month && MonthEnd(candidate)
    ensures DaysIn(year, month) - 2 <= candidate.day
  {
    var last := DaysIn(year, month);
    candidate := Date(year, month, last);
    WeekdayShift(year, month, last);
    WeekdayShift(year, month, last - 1);
    while Weekday(candidate) >= 5
      invariant candidate.year == year && candidate.month == month
      invariant last - 2 <= candidate.day <= last
      invariant forall k :: candidate.day < k <= last ==> !Workday(Date(year, month, k))
      decreases candidate.day
    {
      hide Ordinal;
      candidate := Date(year, month, candidate.day - 1);
    }
  }

  lemma MonthEndUnique(d: Date, e: Date)
    requires MonthEnd(d) && MonthEnd(e) && IndexOfMonth(d) == IndexOfMonth(e)
    ensures d == e
  {
    hide Workday;
  }

  /** The month ends from start up to end in months below `limit`, in order. */
  ghost predicate EndsBefore(days: seq<Date>, start: Day, end: Day, limit: int) {
    && Ascending(days)
    && forall d :: d in days <==> MonthEnd(d) && UpTo(start, d) && UpTo(d, end) && IndexOfMonth(d) < limit
  }

  lemma EndsNext(days: seq<Date>, start: Day, end: Day, limit: int, last: Date)
    requires EndsBefore(days, start, end, limit) && MonthEnd(last) && IndexOfMonth(last) == limit
    ensures EndsBefore(if UpTo(start, last) && UpTo(last, end) then days + [last] else days, start, end, limit + 1)
  {
    hide MonthEnd;
    var more := if UpTo(start, last) && UpTo(last, end) then days + [last] else days;
    forall d | MonthEnd(d) && IndexOfMonth(d) == limit ensures d == last { MonthEndUnique(d, last); }
    forall i | 0 <= i < |days| ensures Before(days[i], last) {
      assert days[i] in days;
      EarlierMonth(days[i], last);
    }
    assert forall d :: d in more <==> d in days || (d == last && UpTo(start, last) && UpTo(last, end));
  }

  lemma EarlierMonth(d: Date, e: Date)
    requires MonthEnd(d) && MonthEnd(e) && IndexOfMonth(d) < IndexOfMonth(e)
    ensures Before(d, e)
  {
    hide Workday;
  }

  /**
   The output is strictly increasing and is exactly the set of dates in range that
   are the last workday of their month.
  */
  method MonthEndWorkdaysBetween(start: Day, end: Day) returns (days: seq<Date>)
    ensures Ascending(days)
    ensures forall d :: d in days <==> MonthEnd(d) && UpTo(start, d) && UpTo(d, end)
  {
    hide MonthEnd, Ascending, MonthIndex;
    var months := MonthsBetween(start, end);
    days := [];
    NoneBefore(start, end);
    for i := 0 to |months|
      invariant EndsBefore(days, start, end, IndexOfMonth(start) + i)
    {
      var (year, month) := months[i];
      var last := LastWorkdayOfMonth(year, month);
      EndsNext(days, start, end, IndexOfMonth(start) + i, last);
      if UpTo(start, last) && UpTo(last, end) { days := days + [last]; }
    }
    forall d | MonthEnd(d) && UpTo(start, d) && UpTo(d, end) ensures IndexOfMonth(d) < IndexOfMonth(start) + |months| {
      MonthInRange(start, end, d);
    }
  }

  lemma NoneBefore(start: Day, end: Day)
    ensures EndsBefore([], start, end, IndexOfMonth(start))
  {
    forall d | MonthEnd(d) && UpTo(start, d) && UpTo(d, end) ensures IndexOfMonth(d) >= IndexOfMonth(start) {
      MonthInRange(start, end, d);
    }
  }

  lemma MonthInRange(start: Day, end: Day, d: Date)
    requires MonthEnd(d) && UpTo(start, d) && UpTo(d, end)
    ensures IndexOfMonth(start) <= IndexOfMonth(d) <= IndexOfMonth(end)
  {
    hide Workday;
  }

  // The documented promise ---------------------------------------------------------------------

  /** Every month has its end: the method's loop, as a fact. */
  lemma MonthHasEnd(year: int, month: int) returns (d: Date)
    requires 1 <= year <= 9999 && 1 <= month <= 12
    ensures MonthEnd(d) && d.year == year && d.month == month
  {
    var last := DaysIn(year, month);
    WeekdayShift(year, month, last);
    WeekdayShift(year, month, last - 1);
    hide Ordinal, Weekday;
    d := Date(year, month, if Workday(Date(year, month, last)) then last
                           else if Workday(Date(year, month, last - 1)) then last - 1 else last - 2);
    assert Workday(d) by { SomeWorkday(year, month, last); }
  }

  lemma SomeWorkday(year: int, month: int, day: int)
    ensures Workday(Date(year, month, day)) || Workday(Date(year, month, day - 1)) || Workday(Date(year, month, day - 2))
  {
    WeekdayShift(year, month, day);
    WeekdayShift(year, month, day - 1);
    hide Ordinal;
  }

  predicate InMonthOf(d: Date, e: Date) { Valid(d) && d.year == e.year && d.month == e.month }

  /** Every month touched by the range has its last workday in the range, as the generator's documentation says. */
  ghost predicate EveryMonthYields(start: Day, end: Day) {
    forall d :: MonthEnd(d) && IndexOfMonth(start) <= IndexOfMonth(d) <= IndexOfMonth(end) ==> UpTo(start, d) && UpTo(d, end)
  }

  /** The first month still has a workday to come, and the last one has none left. */
  ghost predicate BoundsFit(start: Day, end: Day) {
    && (exists w :: InMonthOf(w, start) && Workday(w) && UpTo(start, w))
    && (forall w :: InMonthOf(w, end) && Workday(w) ==> UpTo(w, end))
  }

  lemma FirstMonthExact(start: Day, d: Date)
    requires MonthEnd(d) && IndexOfMonth(d) == IndexOfMonth(start)
    ensures UpTo(start, d) <==> exists w :: InMonthOf(w, start) && Workday(w) && UpTo(start, w)
  {
    hide Workday;
    if UpTo(start, d) { assert InMonthOf(d, start) && Workday(d); }
  }

  lemma LastMonthExact(end: Day, d: Date)
    requires MonthEnd(d) && IndexOfMonth(d) == IndexOfMonth(end)
    ensures UpTo(d, end) <==> forall w :: InMonthOf(w, end) && Workday(w) ==> UpTo(w, end)
  {
    hide Workday;
    if !UpTo(d, end) { assert InMonthOf(d, end) && Workday(d); }
  }

  /** The promise holds of a non-empty range if and only if its bounds fit. */
  lemma EveryMonthYieldsExact(start: Day, end: Day)
    requires UpTo(start, end)
    ensures EveryMonthYields(start, end) <==> BoundsFit(start, end)
  {
    var first := MonthHasEnd(start.year, start.month);
    var last := MonthHasEnd(end.year, end.month);
    FirstMonthExact(start, first);
    LastMonthExact(end, last);
    hide Workday, MonthEnd, BoundsFit;
    if BoundsFit(start, end) {
      BoundsFitMeans(start, end);
      forall d | MonthEnd(d) && IndexOfMonth(start) <= IndexOfMonth(d) <= IndexOfMonth(end) ensures UpTo(start, d) && UpTo(d, end) {
        MonthEndIsValid(d);
        if IndexOfMonth(d) == IndexOfMonth(start) { FirstMonthExact(start, d); }
        if IndexOfMonth(d) == IndexOfMonth(end) { LastMonthExact(end, d); }
      }
    }
    if EveryMonthYields(start, end) {
      assert IndexOfMonth(start) <= IndexOfMonth(end);
      assert UpTo(start, first) && UpTo(last, end);
      BoundsFitMeans(start, end);
    }
  }

  lemma BoundsFitMeans(start: Day, end: Day)
    ensures BoundsFit(start, end) <==>
            && (exists w :: InMonthOf(w, start) && Workday(w) && UpTo(start, w))
            && (forall w :: InMonthOf(w, end) && Workday(w) ==> UpTo(w, end))
  {}

  lemma MonthEndIsValid(d: Date)
    ensures MonthEnd(d) ==> Valid(d)
  {}

  /** It fails of the first ten days of 2026: January is touched, and nothing is yielded for it. */
  lemma TouchedMonthLeftOut()
    ensures !EveryMonthYields(Date(2026, 1, 1), Date(2026, 1, 10))
    ensures forall d :: MonthEnd(d) && UpTo(Date(2026, 1, 1), d) ==> !UpTo(d, Date(2026, 1, 10))
  {
    var end := Date(2026, 1, 10);
    assert DaysBeforeMonth(2026, 1) == 0;
    assert Workday(Date(2026, 1, 30)) && Workday(Date(2026, 1, 12));
    assert InMonthOf(Date(2026, 1, 30), end) && !UpTo(Date(2026, 1, 30), end);
    EveryMonthYieldsExact(Date(2026, 1, 1), end);
    forall d | MonthEnd(d) && UpTo(Date(2026, 1, 1), d) ensures !UpTo(d, end) {
      assert d.year == 2026 && d.month == 1 ==> d.day >= Date(2026, 1, 30).day;
    }
  }

  // Anchors --------------------------------------------------------------------------------------

  /** With the step law of NextDayExact this fixes every weekday: the fifth of January 2026 is a Monday. */
  lemma KnownMonday()
    ensures Weekday(Date(2026, 1, 5)) == 0 && Ordinal(Date(1, 1, 1)) == 1
  {
    assert DaysBeforeMonth(2026, 1) == 0 && DaysBeforeMonth(1, 1) == 0;
  }

  /** The dates there are: thirty-one days, but thirty in four months and in February twenty-eight, or twenty-nine in leap years. */
  lemma ValidExact(y: int, m: int, d: int)
    ensures Valid(Date(y, m, d)) <==>
            && 1 <= y <= 9999 && 1 <= m <= 12 && 1 <= d <= 31
            && (d == 31 ==> m in {1, 3, 5, 7, 8, 10, 12})
            && (m == 2 ==> d <= 29 && (d == 29 ==> (y % 4 == 0 && y % 100 != 0) || y % 400 == 0))
  {}
}
