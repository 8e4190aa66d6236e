/** Which schedules the four-year search limit refuses: those that never fire, and leap days that are too far away. */
module CronHorizon {
  import opened Calendar
  import opened CronSchedule
  import opened CronExpression
  import opened Text

  /** What compilation guarantees: every set is non-empty and in range, and an unrestricted day field is full. */
  ghost predicate WellFormed(s: Schedule) {
    && InRange(s.minute, FIELD_SPECS[0]) && InRange(s.hour, FIELD_SPECS[1]) && InRange(s.dayOfMonth, FIELD_SPECS[2])
    && InRange(s.month, FIELD_SPECS[3]) && InRange(s.dayOfWeek, FIELD_SPECS[4])
    && (!s.domRestricted ==> Full(s.dayOfMonth, FIELD_SPECS[2]))
    && (!s.dowRestricted ==> Full(s.dayOfWeek, FIELD_SPECS[4]))
  }

  lemma CompiledIsWellFormed(fields: seq<string>, s: Schedule)
    requires Accepts(fields) && Compiled(fields, s)
    ensures WellFormed(s)
  {
    var r0 :| Means(fields[0], FIELD_SPECS[0], s.minute, r0);
    var r1 :| Means(fields[1], FIELD_SPECS[1], s.hour, r1);
    var r3 :| Means(fields[3], FIELD_SPECS[3], s.month, r3);
    MeaningInRange(fields[0], FIELD_SPECS[0], s.minute, r0);
    MeaningInRange(fields[1], FIELD_SPECS[1], s.hour, r1);
    MeaningInRange(fields[2], FIELD_SPECS[2], s.dayOfMonth, s.domRestricted);
    MeaningInRange(fields[3], FIELD_SPECS[3], s.month, r3);
    MeaningInRange(fields[4], FIELD_SPECS[4], s.dayOfWeek, s.dowRestricted);
  }

  /** The month and day-of-month fields name a date that exists, in leap years at least. */
  predicate NamesDate(s: Schedule, month: int, day: int) {
    month in s.month && day in s.dayOfMonth && ValidDate(Date(4, month, day))
  }

  /** The schedule fires on some date, in some year. */
  ghost predicate NamesSomeDate(s: Schedule) {
    s.dowRestricted || exists month, day :: NamesDate(s, month, day)
  }

  /** 29 February is the only date on which the schedule fires. */
  ghost predicate LeapOnly(s: Schedule) {
    && !s.dowRestricted && NamesDate(s, 2, 29)
    && forall month, day :: NamesDate(s, month, day) ==> month == 2 && day == 29
  }

  /** Minute `q` of a day is one the hour and minute fields name. */
  predicate NamesTime(s: Schedule, q: int) {
    0 <= q < MINUTES_PER_DAY && q / 60 in s.hour && q % 60 in s.minute
  }

  ghost predicate Reachable(s: Schedule, after: int) {
    exists t :: InWindow(after, t) && Matches(s, t)
  }

  function Minute(n: int, q: int): int {
    n * MINUTES_PER_DAY + q
  }

  lemma Remainder(x: int, m: nat, k: int, r: int)
    requires m in {60, MINUTES_PER_DAY} && x == k * m + r && 0 <= r < m
    ensures x / m == k && x % m == r
  {
  }

  lemma MinuteParts(n: int, q: int)
    requires 0 <= q < MINUTES_PER_DAY
    ensures DayOf(Minute(n, q)) == n && HourOf(Minute(n, q)) == q / 60 && MinuteOf(Minute(n, q)) == q % 60
  {
    var t := Minute(n, q);
    Remainder(t, MINUTES_PER_DAY, n, q);
    Remainder(t, 60, 24 * n + q / 60, q % 60);
  }

  lemma MatchesAt(s: Schedule, n: int, q: int)
    requires 0 <= q < MINUTES_PER_DAY
    ensures Matches(s, Minute(n, q)) <==>
              DateOf(n).month in s.month && MatchesDay(s, DateOf(n), Weekday(n)) && NamesTime(s, q)
  {
    MinuteParts(n, q);
  }

  lemma Pick(values: set<int>, spec: FieldSpec) returns (v: int)
    requires InRange(values, spec)
    ensures v in values && spec.min <= v <= spec.max
  {
    v :| v in values;
  }

  /** A compiled schedule names some time of day. */
  lemma SomeTime(s: Schedule) returns (q: int)
    requires WellFormed(s)
    ensures NamesTime(s, q)
  {
    var h := Pick(s.hour, FIELD_SPECS[1]);
    var m := Pick(s.minute, FIELD_SPECS[0]);
    q := h * 60 + m;
  }

  // ----- schedules that are not confined to leap days fire every calendar year

  lemma WeekdayInMonth(n: int, w: int) returns (k: int)
    requires 0 <= w <= 6
    ensures 0 <= k <= 6 && Weekday(n + k) == w
  {
    k := (w - Weekday(n)) % 7;
  }

  lemma FiresInYear(s: Schedule, year: int) returns (d: Date)
    requires WellFormed(s) && NamesSomeDate(s) && !LeapOnly(s)
    ensures ValidDate(d) && d.year == year && d.month in s.month && MatchesDay(s, d, Weekday(DayNumber(d)))
  {
    if s.dowRestricted {
      var month := Pick(s.month, FIELD_SPECS[3]);
      var w := Pick(s.dayOfWeek, FIELD_SPECS[4]);
      var k := WeekdayInMonth(DayNumber(Date(year, month, 1)), w);
      d := Date(year, month, 1 + k);
      assert DayNumber(d) == DayNumber(Date(year, month, 1)) + k;
    } else {
      var month, day :| NamesDate(s, month, day) && !(month == 2 && day == 29);
      d := Date(year, month, day);
    }
  }

  /** Any date of the following year lies inside the window, at any time of day. */
  lemma NextYearInWindow(after: int, d: Date, q: int)
    requires ValidDate(d) && d.year == DateOf(after / NANOS_PER_DAY).year + 1 && 0 <= q < MINUTES_PER_DAY
    ensures InWindow(after, Minute(DayNumber(d), q))
  {
    var n, from := DayNumber(d), DateOf(after / NANOS_PER_DAY);
    DayNumberMonotone(from, d);
    DayNumberMonotone(d, LimitDate(from));
    LimitDay(from);
    WindowByDay(after, n, q);
  }

  /** The date four years on: the same, or 1 March for a 29 February that does not come. */
  function LimitDate(d: Date): (limit: Date)
    requires ValidDate(d)
    ensures ValidDate(limit)
  {
    var same := d.(year := d.year + 4);
    if ValidDate(same) then same else Date(d.year + 4, 3, 1)
  }

  lemma LimitDay(d: Date)
    requires ValidDate(d)
    ensures DayNumber(d.(year := d.year + 4)) == DayNumber(LimitDate(d))
  {
    if !ValidDate(d.(year := d.year + 4)) {
      assert DaysBeforeMonth(d.year + 4, 3) == DaysBeforeMonth(d.year + 4, 2) + 28;
    }
  }

  /** The window, day by day: strictly later than `after` on its own day, strictly earlier than it on the last. */
  lemma WindowByDay(after: int, n: int, q: int)
    requires 0 <= q < MINUTES_PER_DAY
    ensures var day, rest, limit := after / NANOS_PER_DAY, after % NANOS_PER_DAY,
                                    DayNumber(LimitDate(DateOf(after / NANOS_PER_DAY)));
            InWindow(after, Minute(n, q)) <==>
              && (day < n || (day == n && rest < q * NANOS_PER_MINUTE))
              && (n < limit || (n == limit && q * NANOS_PER_MINUTE < rest))
  {
    var day, rest := after / NANOS_PER_DAY, after % NANOS_PER_DAY;
    LimitDay(DateOf(day));
    assert Minute(n, q) * NANOS_PER_MINUTE == n * NANOS_PER_DAY + q * NANOS_PER_MINUTE;
    assert 0 <= q * NANOS_PER_MINUTE < NANOS_PER_DAY;
    assert after == day * NANOS_PER_DAY + rest;
  }

  /** A schedule that fires on a date of every year is never refused. */
  lemma OrdinaryReachable(s: Schedule, after: int)
    requires WellFormed(s) && NamesSomeDate(s) && !LeapOnly(s)
    ensures Reachable(s, after)
  {
    var d := FiresInYear(s, DateOf(after / NANOS_PER_DAY).year + 1);
    var q := SomeTime(s);
    NextYearInWindow(after, d, q);
    DateOfDayNumber(d);
    MatchesAt(s, DayNumber(d), q);
  }

  lemma MatchNamesDate(s: Schedule, t: int)
    requires WellFormed(s) && Matches(s, t)
    ensures NamesSomeDate(s)
    ensures !s.dowRestricted ==> NamesDate(s, DateOf(DayOf(t)).month, DateOf(DayOf(t)).day)
  {
  }

  // ----- schedules confined to leap days

  /**
   * Within the four years after `after` there is a leap day with a named time: before 29 February of its year a
   * leap year among that year and the next three, after it one among the next four, and on a leap day itself
   * either a later time that day, or an earlier time on the same date four years on.
   */
  ghost predicate LeapDayAhead(s: Schedule, after: int) {
    var d, rest := DateOf(after / NANOS_PER_DAY), after % NANOS_PER_DAY;
    if Earlier(d, Date(d.year, 2, 29)) then
      IsLeap(d.year) || IsLeap(d.year + 1) || IsLeap(d.year + 2) || IsLeap(d.year + 3)
    else if d.month == 2 && d.day == 29 then
      || (exists q :: NamesTime(s, q) && rest < q * NANOS_PER_MINUTE)
      || (IsLeap(d.year + 4) && exists q :: NamesTime(s, q) && q * NANOS_PER_MINUTE < rest)
    else
      IsLeap(d.year + 1) || IsLeap(d.year + 2) || IsLeap(d.year + 3) || IsLeap(d.year + 4)
  }

  function LeapDay(year: int): (d: Date)
    requires IsLeap(year)
    ensures ValidDate(d)
  {
    Date(year, 2, 29)
  }

  lemma LeapOnlyMatches(s: Schedule, n: int, q: int)
    requires WellFormed(s) && LeapOnly(s) && 0 <= q < MINUTES_PER_DAY
    ensures Matches(s, Minute(n, q)) <==> DateOf(n).month == 2 && DateOf(n).day == 29 && NamesTime(s, q)
  {
    MatchesAt(s, n, q);
    var d := DateOf(n);
    assert NamesDate(s, 2, 29);
    if d.month in s.month && MatchesDay(s, d, Weekday(n)) {
      assert NamesDate(s, d.month, d.day);
    }
  }

  /** The window around a leap day, by dates. */
  lemma LeapWindow(after: int, year: int, q: int)
    requires IsLeap(year) && 0 <= q < MINUTES_PER_DAY
    ensures var d, rest := DateOf(after / NANOS_PER_DAY), after % NANOS_PER_DAY;
            InWindow(after, Minute(DayNumber(LeapDay(year)), q)) <==>
              && (Earlier(d, LeapDay(year)) || (d == LeapDay(year) && rest < q * NANOS_PER_MINUTE))
              && (Earlier(LeapDay(year), LimitDate(d)) || (LeapDay(year) == LimitDate(d) && q * NANOS_PER_MINUTE < rest))
  {
    var d := DateOf(after / NANOS_PER_DAY);
    WindowByDay(after, DayNumber(LeapDay(year)), q);
    CompareDays(d, LeapDay(year));
    CompareDays(LeapDay(year), LimitDate(d));
  }

  lemma CompareDays(a: Date, b: Date)
    requires ValidDate(a) && ValidDate(b)
    ensures Earlier(a, b) <==> DayNumber(a) < DayNumber(b)
    ensures a == b <==> DayNumber(a) == DayNumber(b)
  {
    if Earlier(a, b) {
      DayNumberMonotone(a, b);
    } else if Earlier(b, a) {
      DayNumberMonotone(b, a);
    }
  }

  lemma LeapDayReached(s: Schedule, after: int, year: int, q: int)
    requires WellFormed(s) && LeapOnly(s) && IsLeap(year) && NamesTime(s, q)
    ensures InWindow(after, Minute(DayNumber(LeapDay(year)), q)) ==> Reachable(s, after)
  {
    DateOfDayNumber(LeapDay(year));
    LeapOnlyMatches(s, DayNumber(LeapDay(year)), q);
  }

  lemma AheadIsReachable(s: Schedule, after: int)
    requires WellFormed(s) && LeapOnly(s)
    ensures LeapDayAhead(s, after) ==> Reachable(s, after)
  {
    var d, rest := DateOf(after / NANOS_PER_DAY), after % NANOS_PER_DAY;
    if LeapDayAhead(s, after) {
      var year := d.year;
      var q := SomeTime(s);
      if d.month == 2 && d.day == 29 {
        if later :| NamesTime(s, later) && rest < later * NANOS_PER_MINUTE {
          q := later;
        } else {
          q :| NamesTime(s, q) && q * NANOS_PER_MINUTE < rest;
          year := d.year + 4;
        }
      } else {
        year :| d.year <= year <= d.year + 4 && IsLeap(year)
                && Earlier(d, LeapDay(year)) && Earlier(LeapDay(year), LimitDate(d));
      }
      LeapWindow(after, year, q);
      LeapDayReached(s, after, year, q);
    }
  }

  lemma YearIsListed(first: int, year: int)
    requires first <= year <= first + 4 && IsLeap(year)
    ensures year < first + 4 ==> IsLeap(first) || IsLeap(first + 1) || IsLeap(first + 2) || IsLeap(first + 3)
    ensures first < year ==> IsLeap(first + 1) || IsLeap(first + 2) || IsLeap(first + 3) || IsLeap(first + 4)
  {
  }

  /** Which years a leap day between two dates four years apart can have. */
  lemma LeapYearsBetween(d: Date, year: int)
    requires ValidDate(d) && IsLeap(year)
    requires !Earlier(LeapDay(year), d) && !Earlier(LimitDate(d), LeapDay(year))
    ensures d.year <= year <= d.year + 4
    ensures year == d.year ==> !(d.month > 2)
    ensures year == d.year + 4 ==> !Earlier(d, Date(d.year, 2, 29))
    ensures d.month == 2 && d.day == 29 ==> year == d.year || year == d.year + 4
  {
  }

  lemma ReachableIsAhead(s: Schedule, after: int)
    requires WellFormed(s) && LeapOnly(s)
    ensures Reachable(s, after) ==> LeapDayAhead(s, after)
  {
    if t :| InWindow(after, t) && Matches(s, t) {
      var n, q := DayOf(t), t % MINUTES_PER_DAY;
      assert t == Minute(n, q);
      LeapOnlyMatches(s, n, q);
      assert DateOf(n) == LeapDay(DateOf(n).year);
      ReachedFrom(s, after, DateOf(n).year, q);
    }
  }

  lemma ReachedFrom(s: Schedule, after: int, year: int, q: int)
    requires IsLeap(year) && NamesTime(s, q)
    ensures InWindow(after, Minute(DayNumber(LeapDay(year)), q)) ==> LeapDayAhead(s, after)
  {
    var d := DateOf(after / NANOS_PER_DAY);
    LeapWindow(after, year, q);
    if InWindow(after, Minute(DayNumber(LeapDay(year)), q)) {
      LeapYearsBetween(d, year);
      YearIsListed(d.year, year);
    }
  }

  /**
   * The search succeeds exactly for a schedule that names an existing date and, when that date is 29 February
   * alone, has a leap day ahead. Without the limit only the first half would matter.
   */
  lemma ReachableExactly(s: Schedule, after: int)
    requires WellFormed(s)
    ensures Reachable(s, after) <==> NamesSomeDate(s) && (LeapOnly(s) ==> LeapDayAhead(s, after))
  {
    if LeapOnly(s) {
      AheadIsReachable(s, after);
      ReachableIsAhead(s, after);
    } else if NamesSomeDate(s) {
      OrdinaryReachable(s, after);
    } else {
      forall t | Matches(s, t)
        ensures false
      {
        MatchNamesDate(s, t);
      }
    }
  }

  /** A schedule fires at some time, ever, exactly when it names an existing date. */
  lemma FiresEver(s: Schedule)
    requires WellFormed(s)
    ensures (exists t :: Matches(s, t)) <==> NamesSomeDate(s)
  {
    if t :| Matches(s, t) {
      MatchNamesDate(s, t);
    }
    if NamesSomeDate(s) && !LeapOnly(s) {
      OrdinaryReachable(s, 0);
    } else if NamesSomeDate(s) {
      var q := SomeTime(s);
      DateOfDayNumber(LeapDay(2024));
      LeapOnlyMatches(s, DayNumber(LeapDay(2024)), q);
    }
  }

  /** Whether an expression is accepted at an instant: it parses, and its schedule fires before the limit. */
  method Validate(expression: string, now: int) returns (ok: bool)
    ensures ok <==>
              && Accepts(Fields(TrimSpace(expression)))
              && exists s :: Compiled(Fields(TrimSpace(expression)), s)
                             && NamesSomeDate(s) && (LeapOnly(s) ==> LeapDayAhead(s, now))
  {
    var fields := Fields(TrimSpace(expression));
    var s := Parse(expression);
    if s.None? {
      return false;
    }
    var next := Next(s.value, now);
    CompiledIsWellFormed(fields, s.value);
    ReachableExactly(s.value, now);
    forall other | Compiled(fields, other)
      ensures other == s.value
    {
      CompiledUniquely(fields, s.value, other);
    }
    return next.Some?;
  }

  lemma CompiledUniquely(fields: seq<string>, s: Schedule, r: Schedule)
    requires |fields| == 5 && Compiled(fields, s) && Compiled(fields, r)
    ensures s == r
  {
    SameMeaning(fields[0], FIELD_SPECS[0], s.minute, r.minute);
    SameMeaning(fields[1], FIELD_SPECS[1], s.hour, r.hour);
    SameMeaning(fields[2], FIELD_SPECS[2], s.dayOfMonth, r.dayOfMonth);
    SameMeaning(fields[3], FIELD_SPECS[3], s.month, r.month);
    SameMeaning(fields[4], FIELD_SPECS[4], s.dayOfWeek, r.dayOfWeek);
  }

  lemma SameMeaning(field: string, spec: FieldSpec, a: set<int>, b: set<int>)
    requires (exists x :: Means(field, spec, a, x)) && (exists x :: Means(field, spec, b, x))
    ensures a == b
  {
    var x :| Means(field, spec, a, x);
    var y :| Means(field, spec, b, y);
    assert forall v :: v in a <==> Named(Split(field, ','), spec, v);
    assert forall v :: v in b <==> Named(Split(field, ','), spec, v);
    assert forall v :: v in a <==> v in b;
  }

  // ----- leap days at a single time

  ghost predicate OneTime(s: Schedule) {
    forall p, q :: NamesTime(s, p) && NamesTime(s, q) ==> p == q
  }

  /** Asked from one of its own fires, a leap-day schedule with one time of day is always refused. */
  lemma OwnFireRefused(s: Schedule, t: int)
    requires WellFormed(s) && LeapOnly(s) && OneTime(s) && Matches(s, t)
    ensures !Reachable(s, t * NANOS_PER_MINUTE)
  {
    var n, q := DayOf(t), t % MINUTES_PER_DAY;
    assert t == Minute(n, q);
    LeapOnlyMatches(s, n, q);
    var after := t * NANOS_PER_MINUTE;
    assert after == n * NANOS_PER_DAY + q * NANOS_PER_MINUTE;
    assert after / NANOS_PER_DAY == n && after % NANOS_PER_DAY == q * NANOS_PER_MINUTE;
    ReachableExactly(s, after);
  }

  /** So a preview lists at most one fire of it. */
  lemma PreviewOfLeapDay(s: Schedule, from: int, fires: seq<int>)
    requires WellFormed(s) && LeapOnly(s) && OneTime(s) && Consecutive(s, from, fires)
    ensures |fires| <= 1
  {
    if |fires| > 1 {
      FireFollows(s, from, fires, 0);
      FireFollows(s, from, fires, 1);
      assert FireOk(s, from, fires, 1);
      assert Reachable(s, fires[0] * NANOS_PER_MINUTE);
      OwnFireRefused(s, fires[0]);
    }
  }

  const LEAP_DAYS := Schedule({0}, {0}, {29}, {2}, {0, 1, 2, 3, 4, 5, 6}, true, false)

  /** Midnight on 29 February 2028 is a fire, and is not found from midnight on 29 February 2024. */
  lemma LeapDayMissed()
    ensures var from, next := Minute(DayNumber(Date(2024, 2, 29)), 0), Minute(DayNumber(Date(2028, 2, 29)), 0);
            Matches(LEAP_DAYS, next) && from < next && !Reachable(LEAP_DAYS, from * NANOS_PER_MINUTE)
  {
    assert 0 in LEAP_DAYS.minute && 0 in LEAP_DAYS.hour && 29 in LEAP_DAYS.dayOfMonth && 2 in LEAP_DAYS.month
           && 0 in LEAP_DAYS.dayOfWeek;
    assert WellFormed(LEAP_DAYS);
    assert NamesDate(LEAP_DAYS, 2, 29);
    assert LeapOnly(LEAP_DAYS) && OneTime(LEAP_DAYS);
    forall year | year in {2024, 2028}
      ensures Matches(LEAP_DAYS, Minute(DayNumber(Date(year, 2, 29)), 0))
    {
      DateOfDayNumber(Date(year, 2, 29));
      LeapOnlyMatches(LEAP_DAYS, DayNumber(Date(year, 2, 29)), 0);
    }
    DayNumberMonotone(Date(2024, 2, 29), Date(2028, 2, 29));
    OwnFireRefused(LEAP_DAYS, Minute(DayNumber(Date(2024, 2, 29)), 0));
  }
}
