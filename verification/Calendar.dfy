// The proleptic Gregorian calendar in UTC, to the minute: days and minutes numbered from the start of year 0,
// the day of the week, and stepping to the next minute, hour, day and month, each one unit later.
module Calendar {
  predicate Leap(y: int) {
    y % 4 == 0 && (y % 100 != 0 || y % 400 == 0)
  }

  function DaysIn(y: int, m: int): int {
    if m == 2 then (if Leap(y) then 29 else 28)
    else if m == 4 || m == 6 || m == 9 || m == 11 then 30
    else 31
  }

  /** Days from the start of year 0 to the start of year `y`. */
  function DaysBeforeYear(y: int): int {
    365 * y + (y + 3) / 4 - (y + 99) / 100 + (y + 399) / 400
  }

  function DaysBeforeMonth(y: int, m: int): int
    requires 1 <= m <= 13
  {
    if m == 1 then 0 else DaysBeforeMonth(y, m - 1) + DaysIn(y, m - 1)
  }

  datatype Date = Date(year: int, month: int, day: int) {
    predicate Valid() {
      1 <= month <= 12 && 1 <= day <= DaysIn(year, month)
    }

    predicate Before(that: Date) {
      || year < that.year
      || (year == that.year && month < that.month)
      || (year == that.year && month == that.month && day < that.day)
    }

    /** The number of days since the start of year 0. */
    function Number(): int
      requires Valid()
    {
      DaysBeforeYear(year) + DaysBeforeMonth(year, month) + day - 1
    }

    /** The day of the week, with Sunday 0: the first day of year 0 was a Saturday. */
    function Weekday(): int
      requires Valid()
      ensures 0 <= Weekday() < 7
    {
      (Number() + 6) % 7
    }

    /** `AddDate(0, 0, 1)`. */
    function NextDay(): (d: Date)
      requires Valid()
      ensures d.Valid()
    {
      if day < DaysIn(year, month) then Date(year, month, day + 1) else FirstOfNextMonth()
    }

    /** `AddDate(0, 1, 0)` from the first of a month. */
    function FirstOfNextMonth(): (d: Date)
      requires 1 <= month <= 12
      ensures d.Valid()
    {
      if month < 12 then Date(year, month + 1, 1) else Date(year + 1, 1, 1)
    }

    /** `AddDate(n, 0, 0)`: a day the month does not have runs over into the next month. */
    function AddYears(n: int): (d: Date)
      requires Valid()
      ensures d.Valid()
    {
      if day <= DaysIn(year + n, month) then Date(year + n, month, day)
      else Date(year + n, month + 1, day - DaysIn(year + n, month))
    }
  }

  datatype Minute = Minute(date: Date, hour: int, minute: int) {
    predicate Valid() {
      date.Valid() && 0 <= hour < 24 && 0 <= minute < 60
    }

    predicate Before(that: Minute) {
      || date.Before(that.date)
      || (date == that.date && hour < that.hour)
      || (date == that.date && hour == that.hour && minute < that.minute)
    }

    /** The number of minutes since the start of year 0. */
    function Number(): int
      requires Valid()
    {
      (date.Number() * 24 + hour) * 60 + minute
    }

    /** `Add(time.Minute)`. */
    function NextMinute(): (t: Minute)
      requires Valid()
      ensures t.Valid()
    {
      if minute < 59 then Minute(date, hour, minute + 1) else NextHour()
    }

    /** `Add(time.Hour)` from the start of an hour. */
    function NextHour(): (t: Minute)
      requires Valid()
      ensures t.Valid()
    {
      if hour < 23 then Minute(date, hour + 1, 0) else Minute(date.NextDay(), 0, 0)
    }
  }

  // ----- the calendar has no gaps: civil order is the order of time

  lemma YearLength(y: int)
    ensures DaysBeforeYear(y + 1) - DaysBeforeYear(y) == (if Leap(y) then 366 else 365)
    ensures DaysBeforeMonth(y, 13) == (if Leap(y) then 366 else 365)
  {
    CeilingStep(y, 4);
    CeilingStep(y, 100);
    CeilingStep(y, 400);
    CenturiesAreFours(y);
    MonthsAddUp(y);
  }

  lemma CenturiesAreFours(y: int)
    ensures y % 400 == 0 ==> y % 100 == 0
    ensures y % 100 == 0 ==> y % 4 == 0
  {
  }

  lemma MonthsAddUp(y: int)
    ensures DaysBeforeMonth(y, 13) == 337 + DaysIn(y, 2)
  {
    assert DaysBeforeMonth(y, 2) == DaysBeforeMonth(y, 1) + 31;
    assert DaysBeforeMonth(y, 3) == DaysBeforeMonth(y, 2) + DaysIn(y, 2);
    assert DaysBeforeMonth(y, 5) == DaysBeforeMonth(y, 3) + 61;
    assert DaysBeforeMonth(y, 7) == DaysBeforeMonth(y, 5) + 61;
    assert DaysBeforeMonth(y, 9) == DaysBeforeMonth(y, 7) + 62;
    assert DaysBeforeMonth(y, 11) == DaysBeforeMonth(y, 9) + 61;
    assert DaysBeforeMonth(y, 13) == DaysBeforeMonth(y, 11) + 61;
  }

  lemma CeilingStep(y: int, k: int)
    requires k == 4 || k == 100 || k == 400
    ensures (y + 1 + k - 1) / k - (y + k - 1) / k == if y % k == 0 then 1 else 0
  {
  }

  lemma YearEnds(y: int)
    ensures DaysBeforeYear(y + 1) == DaysBeforeYear(y) + DaysBeforeMonth(y, 12) + 31
  {
    YearLength(y);
    assert DaysBeforeMonth(y, 13) == DaysBeforeMonth(y, 12) + 31;
  }

  lemma MonthEnds(y: int, m: int)
    requires 1 <= m <= 12
    ensures DaysBeforeMonth(y, m + 1) == DaysBeforeMonth(y, m) + DaysIn(y, m)
  {
  }

  lemma WeekdayAfter(n: int)
    ensures (n + 1 + 6) % 7 == ((n + 6) % 7 + 1) % 7
  {
  }

  lemma NextDayNumber(d: Date)
    requires d.Valid()
    ensures d.NextDay().Number() == d.Number() + 1
  {
    if d.day == DaysIn(d.year, d.month) {
      if d.month == 12 {
        YearEnds(d.year);
        assert DaysBeforeMonth(d.year + 1, 1) == 0;
      } else {
        MonthEnds(d.year, d.month);
      }
    }
  }

  /** Stepping to the next day adds one to the day number and one to the weekday. */
  lemma NextDayIsOneLater(d: Date)
    requires d.Valid()
    ensures d.NextDay().Number() == d.Number() + 1
    ensures d.NextDay().Weekday() == (d.Weekday() + 1) % 7
  {
    NextDayNumber(d);
    WeekdayAfter(d.Number());
  }

  lemma NextMinuteIsOneLater(t: Minute)
    requires t.Valid()
    ensures t.NextMinute().Number() == t.Number() + 1
  {
    NextDayIsOneLater(t.date);
  }

  lemma {:induction false} MonthsGrow(y: int, m: int, n: int)
    requires 1 <= m < n <= 13
    ensures DaysBeforeMonth(y, m) + DaysIn(y, m) <= DaysBeforeMonth(y, n)
    decreases n
  {
    if m < n - 1 {
      MonthsGrow(y, m, n - 1);
    }
  }

  lemma {:induction false} YearsGrow(y: int, z: int)
    requires y < z
    ensures DaysBeforeYear(y) + DaysBeforeMonth(y, 13) <= DaysBeforeYear(z)
    decreases z - y
  {
    YearLength(y);
    if y + 1 < z {
      YearsGrow(y + 1, z);
      YearLength(y + 1);
    }
  }

  lemma EarlierDateHasSmallerNumber(a: Date, b: Date)
    requires a.Valid() && b.Valid() && a.Before(b)
    ensures a.Number() < b.Number()
  {
    MonthsGrow(a.year, a.month, 13);
    if a.year < b.year {
      YearsGrow(a.year, b.year);
      if 1 < b.month {
        MonthsGrow(b.year, 1, b.month);
      }
    } else if a.month < b.month {
      MonthsGrow(a.year, a.month, b.month);
    }
  }

  lemma CivilOrderIsTimeOrder(a: Minute, b: Minute)
    requires a.Valid() && b.Valid()
    ensures a.Before(b) <==> a.Number() < b.Number()
    ensures a == b <==> a.Number() == b.Number()
  {
    if a.date.Before(b.date) {
      EarlierDateHasSmallerNumber(a.date, b.date);
    } else if a.date != b.date {
      EarlierDateHasSmallerNumber(b.date, a.date);
    }
  }

  lemma MonthsHaveFourWeeks(y: int, m: int)
    requires 1 <= m <= 12
    ensures 28 <= DaysIn(y, m) <= 31
  {
  }

  /** The weekday a month starts on, given the weekday its year starts on and the length of the months before it. */
  lemma FirstFollows(y: int, m: int)
    requires 1 <= m < 12
    ensures Date(y, m + 1, 1).Weekday() == (Date(y, m, 1).Weekday() + DaysIn(y, m)) % 7
  {
    var n := Date(y, m, 1).Number();
    assert Date(y, m + 1, 1).Number() == n + DaysIn(y, m);
    SumOfWeekdays(n + 6, DaysIn(y, m));
  }

  lemma SumOfWeekdays(n: int, k: int)
    ensures (n + k) % 7 == (n % 7 + k) % 7
  {
  }

  function FirstDay(y: int, m: int): int
    requires 1 <= m <= 12
  {
    MonthsHaveFourWeeks(y, m);
    Date(y, m, 1).Weekday()
  }

  /**
   * The weekdays on record for the first of every month of 2026 and of the next January. With 28 to 31 days in a month
   * they fix the length of each.
   */
  lemma FirstsOf2026()
    ensures FirstDay(2026, 1) == 4 && FirstDay(2026, 2) == 0 && FirstDay(2026, 3) == 0 && FirstDay(2026, 4) == 3
    ensures FirstDay(2026, 5) == 5 && FirstDay(2026, 6) == 1 && FirstDay(2026, 7) == 3 && FirstDay(2026, 8) == 6
    ensures FirstDay(2026, 9) == 2 && FirstDay(2026, 10) == 4 && FirstDay(2026, 11) == 0 && FirstDay(2026, 12) == 2
    ensures FirstDay(2027, 1) == 5
    ensures forall m :: 1 <= m <= 12 ==> 28 <= DaysIn(2026, m) <= 31
  {
    FirstHalfOf2026();
    SecondHalfOf2026();
    forall m | 1 <= m <= 12 ensures 28 <= DaysIn(2026, m) <= 31 {
      MonthsHaveFourWeeks(2026, m);
    }
  }

  lemma FirstHalfOf2026()
    ensures FirstDay(2026, 1) == 4 && FirstDay(2026, 2) == 0 && FirstDay(2026, 3) == 0 && FirstDay(2026, 4) == 3
    ensures FirstDay(2026, 5) == 5 && FirstDay(2026, 6) == 1
  {
    assert FirstDay(2026, 1) == 4;
    FirstFollows(2026, 1);
    FirstFollows(2026, 2);
    FirstFollows(2026, 3);
    FirstFollows(2026, 4);
    FirstFollows(2026, 5);
  }

  lemma SecondHalfOf2026()
    ensures FirstDay(2026, 7) == 3 && FirstDay(2026, 8) == 6 && FirstDay(2026, 9) == 2 && FirstDay(2026, 10) == 4
    ensures FirstDay(2026, 11) == 0 && FirstDay(2026, 12) == 2 && FirstDay(2027, 1) == 5
  {
    FirstHalfOf2026();
    FirstFollows(2026, 6);
    FirstFollows(2026, 7);
    FirstFollows(2026, 8);
    FirstFollows(2026, 9);
    FirstFollows(2026, 10);
    FirstFollows(2026, 11);
    assert FirstDay(2027, 1) == 5;
  }

  /** Two dates whose weekday is on record. */
  lemma KnownWeekdays()
    ensures Date(1970, 1, 1).Weekday() == 4
    ensures Date(2026, 8, 6).Weekday() == 4
  {
    assert DaysBeforeMonth(2026, 8) == 212 by {
      assert DaysBeforeMonth(2026, 3) == 59;
      assert DaysBeforeMonth(2026, 6) == 151;
    }
  }
}
