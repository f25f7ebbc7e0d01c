// The next firing time of a five-field schedule.
module CronNext {
  import opened Calendar
  import opened Strings

  /** A parsed expression: one flag per value of each field, and whether a day field was something other than `*`. */
  datatype Schedule = Schedule(minute: seq<bool>, hour: seq<bool>, dom: seq<bool>, month: seq<bool>, dow: seq<bool>,
                               domRestricted: bool, dowRestricted: bool)
  {
    predicate Shaped() {
      |minute| == 60 && |hour| == 24 && |dom| == 32 && |month| == 13 && |dow| == 7
    }

    predicate DayMatches(d: Date)
      requires Shaped() && d.Valid()
    {
      MonthDayFits(d);
      var domOK := dom[d.day];
      var dowOK := dow[d.Weekday()];
      if domRestricted && dowRestricted then domOK || dowOK
      else if domRestricted then domOK
      else if dowRestricted then dowOK
      else true
    }

    predicate Matches(t: Minute)
      requires Shaped() && t.Valid()
    {
      month[t.date.month] && DayMatches(t.date) && hour[t.hour] && minute[t.minute]
    }

    /** Every field names some value, as every field that parses does. */
    ghost predicate NamesSomething() {
      && Shaped()
      && (exists v :: 0 <= v < 60 && minute[v])
      && (exists v :: 0 <= v < 24 && hour[v])
      && (exists v :: 1 <= v <= 31 && dom[v])
      && (exists v :: 1 <= v <= 12 && month[v])
      && (exists v :: 0 <= v < 7 && dow[v])
    }

    /** A parsed `*` sets every flag of its field. */
    predicate StarsAreFull() {
      && Shaped()
      && (!domRestricted ==> forall v :: 1 <= v <= 31 ==> dom[v])
      && (!dowRestricted ==> forall v :: 0 <= v < 7 ==> dow[v])
    }
  }

  lemma MonthDayFits(d: Date)
    requires d.Valid()
    ensures 1 <= d.day <= 31
  {
  }

  /** The day rule of crontab: with both day fields restricted either may match, otherwise both have to. */
  lemma EitherDayFieldMatches(s: Schedule, d: Date)
    requires s.StarsAreFull() && d.Valid()
    ensures
      s.DayMatches(d) <==>
      (if s.domRestricted && s.dowRestricted then s.dom[d.day] || s.dow[d.Weekday()]
       else s.dom[d.day] && s.dow[d.Weekday()])
  {
  }

  /** An instant: the minute it falls in and the nanoseconds since that minute began. */
  datatype Instant = Instant(at: Minute, nanos: nat) {
    predicate Valid() {
      at.Valid() && nanos < 60_000_000_000
    }

    function Nanos(): int
      requires Valid()
    {
      at.Number() * 60_000_000_000 + nanos
    }
  }

  /** The whole minutes in [from, to) that match, as the statement of `Next` speaks of them. */
  ghost predicate NoMatchIn(s: Schedule, from: Minute, to: Minute)
    requires s.Shaped()
  {
    forall c: Minute :: c.Valid() && !c.Before(from) && c.Before(to) ==> !s.Matches(c)
  }

  function Start(t: Instant): (m: Minute)
    requires t.Valid()
    ensures m.Valid()
  {
    t.at.NextMinute()
  }

  function Limit(t: Instant): (m: Minute)
    requires t.Valid()
    ensures m.Valid()
  {
    var m := Start(t);
    Minute(m.date.AddYears(5), m.hour, m.minute)
  }

  /** The minutes strictly after an instant are those from the first whole minute on. */
  lemma StrictlyAfterIsFromStart(t: Instant, c: Minute)
    requires t.Valid() && c.Valid()
    ensures c.Number() * 60_000_000_000 > t.Nanos() <==> !c.Before(Start(t))
  {
    NextMinuteIsOneLater(t.at);
    CivilOrderIsTimeOrder(c, Start(t));
  }

  /** Everything before the first of the next month and not before `t` lies in the month of `t`. */
  lemma MonthSkipSkipsNoMatch(s: Schedule, t: Minute)
    requires s.Shaped() && t.Valid() && !s.month[t.date.month]
    ensures NoMatchIn(s, t, Minute(t.date.FirstOfNextMonth(), 0, 0))
  {
    var to := Minute(t.date.FirstOfNextMonth(), 0, 0);
    forall c: Minute | c.Valid() && !c.Before(t) && c.Before(to) ensures !s.Matches(c) {
      assert c.date.year == t.date.year && c.date.month == t.date.month;
    }
  }

  lemma DaySkipSkipsNoMatch(s: Schedule, t: Minute)
    requires s.Shaped() && t.Valid() && !s.DayMatches(t.date)
    ensures NoMatchIn(s, t, Minute(t.date.NextDay(), 0, 0))
  {
    var to := Minute(t.date.NextDay(), 0, 0);
    forall c: Minute | c.Valid() && !c.Before(t) && c.Before(to) ensures !s.Matches(c) {
      assert c.date.Before(to.date) && !c.date.Before(t.date);
      assert c.date == t.date;
    }
  }

  lemma HourSkipSkipsNoMatch(s: Schedule, t: Minute)
    requires s.Shaped() && t.Valid() && !s.hour[t.hour]
    ensures NoMatchIn(s, t, t.NextHour())
  {
    forall c: Minute | c.Valid() && !c.Before(t) && c.Before(t.NextHour()) ensures !s.Matches(c) {
      assert c.date == t.date && c.hour == t.hour;
    }
  }

  lemma MinuteSkipSkipsNoMatch(s: Schedule, t: Minute)
    requires s.Shaped() && t.Valid() && !s.Matches(t)
    ensures NoMatchIn(s, t, t.NextMinute())
  {
    forall c: Minute | c.Valid() && !c.Before(t) && c.Before(t.NextMinute()) ensures !s.Matches(c) {
      assert c == t;
    }
  }

  /** A skip over a window without a match extends the window searched so far. */
  lemma SkipExtendsWindow(s: Schedule, start: Minute, from: Minute, to: Minute)
    requires s.Shaped() && start.Valid() && from.Valid() && to.Valid()
    requires !from.Before(start) && from.Before(to)
    requires NoMatchIn(s, start, from) && NoMatchIn(s, from, to)
    ensures NoMatchIn(s, start, to) && !to.Before(start) && from.Number() < to.Number()
  {
    CivilOrderIsTimeOrder(from, to);
  }

  /** A match with none before it in the window is the first one after the instant. */
  lemma FirstMatchIsLeast(s: Schedule, now: Instant, t: Minute)
    requires s.Shaped() && now.Valid() && t.Valid() && !t.Before(Start(now)) && NoMatchIn(s, Start(now), t)
    ensures t.Number() * 60_000_000_000 > now.Nanos()
    ensures forall c: Minute :: c.Valid() && s.Matches(c) && c.Number() * 60_000_000_000 > now.Nanos() ==>
              t.Number() <= c.Number()
  {
    StrictlyAfterIsFromStart(now, t);
    forall c: Minute | c.Valid() && s.Matches(c) && c.Number() * 60_000_000_000 > now.Nanos()
      ensures t.Number() <= c.Number()
    {
      StrictlyAfterIsFromStart(now, c);
      CivilOrderIsTimeOrder(c, t);
    }
  }

  /** The least matching minute strictly after `now`, or None exactly when none matches in the five-year window. */
  method Next(s: Schedule, now: Instant) returns (r: Option<Minute>)
    requires s.Shaped() && now.Valid()
    ensures r == None <==> NoMatchIn(s, Start(now), Limit(now))
    ensures r.Some? ==>
              && r.value.Valid() && s.Matches(r.value) && r.value.Before(Limit(now))
              && r.value.Number() * 60_000_000_000 > now.Nanos()
    ensures r.Some? ==>
              forall c: Minute :: c.Valid() && s.Matches(c) && c.Number() * 60_000_000_000 > now.Nanos() ==>
                r.value.Number() <= c.Number()
  {
    var t := now.at.NextMinute();
    var limit := Minute(t.date.AddYears(5), t.hour, t.minute);
    while t.Before(limit)
      invariant t.Valid() && !t.Before(Start(now)) && NoMatchIn(s, Start(now), t)
      decreases limit.Number() - t.Number()
    {
      var to;
      if !s.month[t.date.month] {
        MonthSkipSkipsNoMatch(s, t);
        to := Minute(t.date.FirstOfNextMonth(), 0, 0);
      } else if !s.DayMatches(t.date) {
        DaySkipSkipsNoMatch(s, t);
        to := Minute(t.date.NextDay(), 0, 0);
      } else if !s.hour[t.hour] {
        HourSkipSkipsNoMatch(s, t);
        to := t.NextHour();
      } else if !s.minute[t.minute] {
        MinuteSkipSkipsNoMatch(s, t);
        to := t.NextMinute();
      } else {
        FirstMatchIsLeast(s, now, t);
        return Some(t);
      }
      SkipExtendsWindow(s, Start(now), t, to);
      CivilOrderIsTimeOrder(t, limit);
      t := to;
    }
    return None;
  }

  /** The window is five years: no date is asked for twice that long ahead, and 29 February becomes 1 March. */
  lemma LimitIsFiveYearsOn(t: Instant)
    requires t.Valid()
    ensures
      var from, to := Start(t), Limit(t);
      && to.hour == from.hour && to.minute == from.minute && to.date.year == from.date.year + 5
      && (if from.date.month == 2 && from.date.day == 29 then to.date.month == 3 && to.date.day == 1
          else to.date.month == from.date.month && to.date.day == from.date.day)
  {
    var y := Start(t).date.year;
    assert Leap(y) ==> y % 4 == 0 && (y + 5) % 4 == 1;
  }
}
