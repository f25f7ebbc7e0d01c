// When a search over five years misses a match.
module CronHorizon {
  import opened Calendar
  import opened CronNext
  import opened Strings

  /** A set day of a set month that every such year has. */
  ghost predicate NamesYearlyDate(s: Schedule)
    requires s.Shaped()
  {
    exists m, d :: 1 <= m <= 12 && 1 <= d <= DaysIn(1, m) && s.month[m] && s.dom[d]
  }

  /** Only 29 February matches: the weekday is free, and no other set day of a set month exists. */
  ghost predicate OnlyLeapDays(s: Schedule)
    requires s.Shaped()
  {
    s.domRestricted && !s.dowRestricted && s.month[2] && s.dom[29] && !NamesYearlyDate(s)
  }

  /** A 29 February at a set hour and minute. */
  predicate LeapMinute(s: Schedule, c: Minute)
    requires s.Shaped()
  {
    c.Valid() && c.date.month == 2 && c.date.day == 29 && s.hour[c.hour] && s.minute[c.minute]
  }

  ghost predicate LeapMinuteIn(s: Schedule, from: Minute, to: Minute)
    requires s.Shaped()
  {
    exists c: Minute :: LeapMinute(s, c) && !c.Before(from) && c.Before(to)
  }

  ghost predicate MatchesFrom(s: Schedule, from: Minute)
    requires s.Shaped()
  {
    exists c: Minute :: c.Valid() && !c.Before(from) && s.Matches(c)
  }

  // ----- dates that come every year -----

  lemma LeapYearsAddOneDay(y: int, m: int)
    requires 1 <= m <= 12
    ensures DaysIn(1, m) >= 28
    ensures DaysIn(y, m) == if m == 2 && Leap(y) then 29 else DaysIn(1, m)
  {
  }

  lemma {:induction false} WeekdaysFollow(y: int, m: int, k: nat)
    requires 1 <= m <= 12 && k < DaysIn(y, m)
    ensures Date(y, m, 1 + k).Weekday() == (Date(y, m, 1).Weekday() + k) % 7
  {
    var first := Date(y, m, 1).Number();
    assert Date(y, m, 1 + k).Number() == first + k;
    Shifted(first + 6, k);
  }

  lemma Shifted(n: int, k: nat)
    ensures (n + k) % 7 == (n % 7 + k) % 7
  {
  }

  /** Every weekday falls on one of the first seven days of a month. */
  lemma WeekdayInFirstWeek(y: int, m: int, w: int) returns (d: Date)
    requires 1 <= m <= 12 && 0 <= w < 7
    ensures d.Valid() && d.year == y && d.month == m && d.Weekday() == w
  {
    LeapYearsAddOneDay(y, m);
    var k := (w - Date(y, m, 1).Weekday()) % 7;
    WeekdaysFollow(y, m, k);
    d := Date(y, m, 1 + k);
  }

  /** Unless only single dates are named, and none that every year has, every year has a day that matches. */
  lemma YearHasAMatch(s: Schedule, y: int) returns (d: Date)
    requires s.NamesSomething() && (s.domRestricted && !s.dowRestricted ==> NamesYearlyDate(s))
    ensures d.Valid() && d.year == y && s.month[d.month] && s.DayMatches(d)
  {
    if s.domRestricted && !s.dowRestricted {
      var m, day :| 1 <= m <= 12 && 1 <= day <= DaysIn(1, m) && s.month[m] && s.dom[day];
      LeapYearsAddOneDay(y, m);
      d := Date(y, m, day);
    } else {
      var m, w :| 1 <= m <= 12 && s.month[m] && 0 <= w < 7 && s.dow[w];
      d := WeekdayInFirstWeek(y, m, w);
    }
  }

  /** The year after the first minute asked about lies in the window. */
  lemma NextYearIsInWindow(now: Instant, c: Minute)
    requires now.Valid() && c.Valid() && c.date.year == Start(now).date.year + 1
    ensures !c.Before(Start(now)) && c.Before(Limit(now))
  {
    LimitIsFiveYearsOn(now);
  }

  lemma MinuteOn(s: Schedule, d: Date) returns (c: Minute)
    requires s.NamesSomething() && d.Valid()
    ensures c.Valid() && c.date == d && s.hour[c.hour] && s.minute[c.minute]
  {
    var h, mi :| 0 <= h < 24 && s.hour[h] && 0 <= mi < 60 && s.minute[mi];
    c := Minute(d, h, mi);
  }

  lemma YearlyDatesAreFound(s: Schedule, now: Instant)
    requires s.NamesSomething() && now.Valid() && (s.domRestricted && !s.dowRestricted ==> NamesYearlyDate(s))
    ensures !NoMatchIn(s, Start(now), Limit(now))
  {
    var d := YearHasAMatch(s, Start(now).date.year + 1);
    var c := MinuteOn(s, d);
    NextYearIsInWindow(now, c);
    assert s.Matches(c);
  }

  // ----- 29 February -----

  /** Without a date that every year has, only 29 February can match. */
  lemma MatchesAreLeapMinutes(s: Schedule, c: Minute)
    requires s.Shaped() && s.domRestricted && !s.dowRestricted && !NamesYearlyDate(s) && c.Valid()
    ensures s.Matches(c) ==> LeapMinute(s, c) && OnlyLeapDays(s)
  {
    LeapYearsAddOneDay(c.date.year, c.date.month);
  }

  lemma LeapMinutesMatch(s: Schedule, c: Minute)
    requires s.Shaped() && OnlyLeapDays(s) && LeapMinute(s, c)
    ensures s.Matches(c)
  {
  }

  /** There is always a later 29 February. */
  lemma LeapMinuteFrom(s: Schedule, from: Minute) returns (c: Minute)
    requires s.NamesSomething() && from.Valid()
    ensures LeapMinute(s, c) && !c.Before(from)
  {
    var y := 400 * (if from.date.year < 0 then 1 else from.date.year + 1);
    assert Leap(y) by {
      assert y % 400 == 0;
      HundredsAreFours(y);
    }
    c := MinuteOn(s, Date(y, 2, 29));
  }

  lemma HundredsAreFours(y: int)
    requires y % 400 == 0
    ensures y % 4 == 0
  {
  }

  /**
   * No match in the window though there is a later one: exactly for schedules that name no date but 29 February, when
   * none at a set hour and minute lies in the window.
   */
  lemma NoResultHidesALaterMatchExactlyWhen(s: Schedule, now: Instant)
    requires s.NamesSomething() && now.Valid()
    ensures NoMatchIn(s, Start(now), Limit(now)) && MatchesFrom(s, Start(now))
            <==> OnlyLeapDays(s) && !LeapMinuteIn(s, Start(now), Limit(now))
  {
    if s.domRestricted && !s.dowRestricted && !NamesYearlyDate(s) {
      forall c: Minute | c.Valid()
        ensures s.Matches(c) ==> LeapMinute(s, c) && OnlyLeapDays(s)
      {
        MatchesAreLeapMinutes(s, c);
      }
      if OnlyLeapDays(s) {
        forall c: Minute | LeapMinute(s, c) ensures s.Matches(c) {
          LeapMinutesMatch(s, c);
        }
        var c := LeapMinuteFrom(s, Start(now));
        assert MatchesFrom(s, Start(now));
      }
    } else {
      YearlyDatesAreFound(s, now);
    }
  }

  /** No minute ever matches exactly when single dates are named and no year has one of them. */
  lemma NothingMatchesExactlyWhen(s: Schedule)
    requires s.NamesSomething()
    ensures (forall c: Minute :: c.Valid() ==> !s.Matches(c))
            <==> s.domRestricted && !s.dowRestricted
                 && forall m, d :: 1 <= m <= 12 && 1 <= d <= DaysIn(4, m) && s.month[m] ==> !s.dom[d]
  {
    if s.domRestricted && !s.dowRestricted {
      forall c: Minute | c.Valid() && s.Matches(c)
        ensures c.date.day <= DaysIn(4, c.date.month)
      {
        LeapYearsAddOneDay(c.date.year, c.date.month);
        LeapYearsAddOneDay(4, c.date.month);
      }
      if m, d :| 1 <= m <= 12 && 1 <= d <= DaysIn(4, m) && s.month[m] && s.dom[d] {
        var c := MinuteOn(s, Date(4, m, d));
        assert s.Matches(c);
      }
    } else {
      var d := YearHasAMatch(s, 4);
      var c := MinuteOn(s, d);
      assert s.Matches(c);
    }
  }

  /** `0 0 29 2 *`: midnight on 29 February. */
  function LeapDayMidnight(): (s: Schedule)
    ensures s.StarsAreFull()
  {
    Schedule(seq(60, i => i == 0), seq(24, i => i == 0), seq(32, i => i == 29), seq(13, i => i == 2), seq(7, i => true),
             true, false)
  }

  /**
   * No result does not mean no such date: 2100 is not a leap year, so from March 2096 the window ends before the
   * next 29 February, which is a date that exists and matches.
   */
  lemma NoResultForADateThatExists()
    ensures
      var asked := Instant(Minute(Date(2096, 2, 29), 0, 0), 0);
      && asked.Valid()
      && NoMatchIn(LeapDayMidnight(), Start(asked), Limit(asked))
      && LeapDayMidnight().Matches(Minute(Date(2104, 2, 29), 0, 0))
  {
    var s, asked := LeapDayMidnight(), Instant(Minute(Date(2096, 2, 29), 0, 0), 0);
    LimitIsFiveYearsOn(asked);
    assert Start(asked) == Minute(Date(2096, 2, 29), 0, 1);
    forall c: Minute | c.Valid() && !c.Before(Start(asked)) && c.Before(Limit(asked)) ensures !s.Matches(c) {
    }
  }
}
