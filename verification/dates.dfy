/** Calendar days as integers counted from 1970-01-01 in the proleptic
    Gregorian calendar, the conversion to year, month and day that
    `getFullYear`, `getMonth` and `getDate` perform, and
    `generateDateArray`'s inclusive enumeration of days. */
module Dates {

  /** A calendar date; `month` is 1-based, as written in file names. */
  datatype Civil = Civil(year: int, month: int, day: int)

  predicate IsLeapYear(y: int)
  {
    y % 4 == 0 && (y % 100 != 0 || y % 400 == 0)
  }

  function DaysInYear(y: int): int
  {
    if IsLeapYear(y) then 366 else 365
  }

  function DaysInMonth(y: int, m: int): int
    requires 1 <= m <= 12
  {
    if m == 2 then (if IsLeapYear(y) then 29 else 28)
    else if m == 4 || m == 6 || m == 9 || m == 11 then 30
    else 31
  }

  /** The days of year `y` before the first of month `m`; month 13 stands
      for the end of the year. */
  function DaysBeforeMonth(y: int, m: int): int
    requires 1 <= m <= 13
  {
    if m == 1 then 0 else DaysBeforeMonth(y, m - 1) + DaysInMonth(y, m - 1)
  }

  predicate ValidCivil(c: Civil)
  {
    1 <= c.month <= 12 && 1 <= c.day <= DaysInMonth(c.year, c.month)
  }

  /** The day number of January 1 of year `y`. */
  function YearStart(y: int): int
    decreases if y >= 1970 then y - 1970 else 1970 - y
  {
    if y == 1970 then 0
    else if y > 1970 then YearStart(y - 1) + DaysInYear(y - 1)
    else YearStart(y + 1) - DaysInYear(y)
  }

  /** The day number of a calendar date. */
  function DayNumber(c: Civil): int
    requires 1 <= c.month <= 12
  {
    YearStart(c.year) + DaysBeforeMonth(c.year, c.month) + c.day - 1
  }

  lemma YearStartStep(y: int)
    ensures YearStart(y + 1) == YearStart(y) + DaysInYear(y)
  {
  }

  /** The twelve months fill the year exactly. */
  lemma MonthsFillYear(y: int)
    ensures DaysBeforeMonth(y, 13) == DaysInYear(y)
  {
    assert DaysBeforeMonth(y, 2) == 31;
    assert DaysBeforeMonth(y, 3) == 31 + DaysInMonth(y, 2);
    assert DaysBeforeMonth(y, 4) == DaysBeforeMonth(y, 3) + 31;
    assert DaysBeforeMonth(y, 5) == DaysBeforeMonth(y, 3) + 61;
    assert DaysBeforeMonth(y, 6) == DaysBeforeMonth(y, 3) + 92;
    assert DaysBeforeMonth(y, 7) == DaysBeforeMonth(y, 3) + 122;
    assert DaysBeforeMonth(y, 8) == DaysBeforeMonth(y, 3) + 153;
    assert DaysBeforeMonth(y, 9) == DaysBeforeMonth(y, 3) + 184;
    assert DaysBeforeMonth(y, 10) == DaysBeforeMonth(y, 3) + 214;
    assert DaysBeforeMonth(y, 11) == DaysBeforeMonth(y, 3) + 245;
    assert DaysBeforeMonth(y, 12) == DaysBeforeMonth(y, 3) + 275;
  }

  /** Later months start no earlier than the end of an earlier one. */
  lemma {:induction false} MonthsOrdered(y: int, a: int, b: int)
    requires 1 <= a < b <= 13
    ensures DaysBeforeMonth(y, a) + DaysInMonth(y, a) <= DaysBeforeMonth(y, b)
    decreases b - a
  {
    if a + 1 < b {
      MonthsOrdered(y, a + 1, b);
    }
  }

  /** Later years start no earlier than the end of an earlier one. */
  lemma {:induction false} YearsOrdered(a: int, b: int)
    requires a < b
    ensures YearStart(a) + DaysInYear(a) <= YearStart(b)
    decreases b - a
  {
    YearStartStep(a);
    if a + 1 < b {
      YearsOrdered(a + 1, b);
    }
  }

  /** The year containing day `n`, searching upwards from `y`. */
  function YearUp(n: int, y: int): (r: int)
    requires YearStart(y) <= n
    ensures YearStart(r) <= n < YearStart(r) + DaysInYear(r)
    decreases n - YearStart(y)
  {
    YearStartStep(y);
    if n < YearStart(y) + DaysInYear(y) then y else YearUp(n, y + 1)
  }

  /** The year containing day `n`, searching downwards from `y`. */
  function YearDown(n: int, y: int): (r: int)
    requires n < YearStart(y) + DaysInYear(y)
    ensures YearStart(r) <= n < YearStart(r) + DaysInYear(r)
    decreases YearStart(y) - n
  {
    YearStartStep(y - 1);
    if YearStart(y) <= n then y else YearDown(n, y - 1)
  }

  /** `getFullYear()` of day `n`. */
  function YearOf(n: int): (y: int)
    ensures YearStart(y) <= n < YearStart(y) + DaysInYear(y)
  {
    YearStartStep(1969);
    if n >= 0 then YearUp(n, 1970) else YearDown(n, 1969)
  }

  /** The month containing day `doy` (0-based) of year `y`, searching from
      month `m`. */
  function MonthOf(y: int, doy: int, m: int): (r: int)
    requires 1 <= m <= 12 && DaysBeforeMonth(y, m) <= doy < DaysInYear(y)
    ensures 1 <= r <= 12
    ensures DaysBeforeMonth(y, r) <= doy < DaysBeforeMonth(y, r) + DaysInMonth(y, r)
    decreases 12 - m
  {
    MonthsFillYear(y);
    if doy < DaysBeforeMonth(y, m) + DaysInMonth(y, m) then m else MonthOf(y, doy, m + 1)
  }

  /** The calendar date of day `n`: `getFullYear()`, `getMonth() + 1` and
      `getDate()`. It is a valid date whose day number is `n`. */
  function CivilOf(n: int): (c: Civil)
    ensures ValidCivil(c) && DayNumber(c) == n
  {
    var y := YearOf(n);
    var m := MonthOf(y, n - YearStart(y), 1);
    Civil(y, m, n - YearStart(y) - DaysBeforeMonth(y, m) + 1)
  }

  /** A valid date's day number falls within its year. */
  lemma WithinYear(c: Civil)
    requires ValidCivil(c)
    ensures YearStart(c.year) <= DayNumber(c) < YearStart(c.year) + DaysInYear(c.year)
  {
    MonthsFillYear(c.year);
    MonthsOrdered(c.year, c.month, 13);
    if c.month > 1 {
      MonthsOrdered(c.year, 1, c.month);
    }
  }

  /** Every valid calendar date is the date of its own day number, so dates
      and day numbers are in one-to-one correspondence. */
  lemma CivilOfDayNumber(c: Civil)
    requires ValidCivil(c)
    ensures CivilOf(DayNumber(c)) == c
  {
    var r := CivilOf(DayNumber(c));
    WithinYear(c);
    WithinYear(r);
    if r.year < c.year {
      YearsOrdered(r.year, c.year);
    } else if r.year > c.year {
      YearsOrdered(c.year, r.year);
    }
    if r.month < c.month {
      MonthsOrdered(c.year, r.month, c.month);
    } else if r.month > c.month {
      MonthsOrdered(c.year, c.month, r.month);
    }
  }

  /** Distinct days have distinct dates. */
  lemma CivilOfInjective(a: int, b: int)
    requires CivilOf(a) == CivilOf(b)
    ensures a == b
  {
  }

  /** The days from `start` to `end` inclusive, in order. */
  function DateRange(start: int, end: int): (days: seq<int>)
    ensures |days| == if start <= end then end - start + 1 else 0
    ensures forall i :: 0 <= i < |days| ==> days[i] == start + i
    decreases end - start
  {
    if start > end then [] else [start] + DateRange(start + 1, end)
  }

  /** `generateDateArray(start, end)`: starting at `start`, step one day at a
      time while the day is not after `end`. */
  method GenerateDateArray(start: int, end: int) returns (days: seq<int>)
    ensures days == DateRange(start, end)
    ensures start > end ==> days == []
    ensures |days| > 0 ==> days[0] == start && days[|days| - 1] == end
    ensures forall i :: 0 < i < |days| ==> days[i] == days[i - 1] + 1
  {
    days := [];
    var d := start;
    while d <= end
      invariant start <= d <= if start <= end then end + 1 else start
      invariant |days| == d - start
      invariant forall i :: 0 <= i < |days| ==> days[i] == start + i
      decreases end - d
    {
      days := days + [d];
      d := d + 1;
    }
    assert forall i :: 0 <= i < |days| ==> days[i] == DateRange(start, end)[i];
  }

  /** The range holds exactly the days between its ends, strictly
      ascending. */
  lemma DateRangeCharacterised(start: int, end: int)
    ensures forall d :: d in DateRange(start, end) <==> start <= d <= end
    ensures forall i, j :: 0 <= i < j < |DateRange(start, end)| ==>
      DateRange(start, end)[i] < DateRange(start, end)[j]
  {
    var days := DateRange(start, end);
    forall d | start <= d <= end
      ensures d in days
    {
      assert days[d - start] == d;
    }
  }

  /** Splitting a range at any day splits the enumeration. */
  lemma DateRangeSplit(start: int, mid: int, end: int)
    requires start <= mid + 1 && mid <= end
    ensures DateRange(start, end) == DateRange(start, mid) + DateRange(mid + 1, end)
  {
  }
}
