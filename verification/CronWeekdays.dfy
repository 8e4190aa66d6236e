/** Weekdays pinned to the calendar: a known date, one step a day, and what a weekday schedule fires on. */
module CronWeekdays {
  import opened Calendar
  import opened CronSchedule
  import opened CronHorizon

  /** 1 January 2000 was a Saturday. */
  lemma KnownWeekday()
    ensures Weekday(DayNumber(Date(2000, 1, 1))) == 6
  {
  }

  lemma WeekdaySteps(n: int)
    ensures Weekday(n + 1) == (Weekday(n) + 1) % 7
  {
  }

  /** The Sunday to Saturday of the first week of 2000 that starts on a Sunday. */
  function KnownDay(w: int): Date
    requires 0 <= w <= 6
  {
    Date(2000, 1, 2 + w)
  }

  lemma KnownDayNumber(w: int)
    requires 0 <= w <= 6
    ensures DayNumber(KnownDay(w)) == 730_120 + w
  {
  }

  lemma SameResidue(n: int, w: int)
    requires 0 <= w <= 6
    ensures (n + 1) % 7 == w <==> (n - (730_120 + w)) % 7 == 0
  {
  }

  /** A day has weekday `w` exactly when it lies whole weeks from the known day of that weekday. */
  lemma WeekdayByDistance(n: int, w: int)
    requires 0 <= w <= 6
    ensures Weekday(n) == w <==> (n - DayNumber(KnownDay(w))) % 7 == 0
  {
    KnownDayNumber(w);
    SameResidue(n, w);
  }

  /**
   * A schedule restricted to one weekday alone fires exactly at its named times, in its months, on the days that
   * lie whole weeks from the known day of that weekday.
   */
  lemma WeekdayFiresExactly(s: Schedule, w: int, t: int)
    requires WellFormed(s) && !s.domRestricted && s.dowRestricted && s.dayOfWeek == {w}
    ensures 0 <= w <= 6
    ensures Matches(s, t) <==>
              && (DayOf(t) - DayNumber(KnownDay(w))) % 7 == 0
              && DateOf(DayOf(t)).month in s.month && HourOf(t) in s.hour && MinuteOf(t) in s.minute
  {
    assert w in s.dayOfWeek;
    WeekdayByDistance(DayOf(t), w);
  }

  /** Asked on Thursday 1 January 2026, a schedule for Mondays at nine first fires on 5 January. */
  lemma MondayExample(s: Schedule, after: int)
    requires WellFormed(s) && !s.domRestricted && s.dowRestricted && s.dayOfWeek == {1}
    requires s.hour == {9} && s.minute == {0} && (forall m :: 1 <= m <= 12 ==> m in s.month)
    requires after == DayNumber(Date(2026, 1, 1)) * NANOS_PER_DAY
    ensures FirstMatch(s, after, Minute(DayNumber(Date(2026, 1, 5)), 540))
  {
    var monday := DayNumber(Date(2026, 1, 5));
    MondayNumber();
    MinuteParts(monday, 540);
    DateOfDayNumber(Date(2026, 1, 5));
    WeekdayFiresExactly(s, 1, Minute(monday, 540));
    forall u | after < u * NANOS_PER_MINUTE && u < Minute(monday, 540)
      ensures !Matches(s, u)
    {
      WeekdayFiresExactly(s, 1, u);
      KnownDayNumber(1);
      NoEarlierMonday(u);
    }
  }

  lemma MondayNumber()
    ensures DayNumber(Date(2026, 1, 1)) == 739_616 && DayNumber(Date(2026, 1, 5)) == 739_620
  {
  }

  lemma NoEarlierMonday(u: int)
    requires 739_616 * NANOS_PER_DAY < u * NANOS_PER_MINUTE && u < Minute(739_620, 540)
    ensures (DayOf(u) - 730_121) % 7 == 0 ==> HourOf(u) * 60 + MinuteOf(u) < 540
  {
    MinuteOfDay(u);
    assert 739_616 <= DayOf(u) <= 739_620;
  }

  lemma MinuteOfDay(u: int)
    ensures u == Minute(DayOf(u), HourOf(u) * 60 + MinuteOf(u))
  {
    var rest := u % MINUTES_PER_DAY;
    MinuteParts(DayOf(u), rest);
    assert u == Minute(DayOf(u), rest);
  }
}
