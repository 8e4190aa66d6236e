/** Five-field cron schedules: the next fire after an instant, found by skipping months, days, hours and minutes. */
module CronSchedule {
  import opened Calendar
  import opened Options

  /** A compiled expression. Wildcard day fields are not restricted. */
  datatype Schedule = Schedule(minute: set<int>, hour: set<int>, dayOfMonth: set<int>, month: set<int>,
                               dayOfWeek: set<int>, domRestricted: bool, dowRestricted: bool)

  // Instants are nanoseconds, minutes are counted from the same origin as the calendar's days.
  const NANOS_PER_MINUTE := 60_000_000_000
  const MINUTES_PER_DAY := 1440
  const NANOS_PER_DAY := 86_400_000_000_000
  const NEXT_FIRES_COUNT := 5

  function DayOf(t: int): int { t / MINUTES_PER_DAY }

  function HourOf(t: int): int { t % MINUTES_PER_DAY / 60 }

  function MinuteOf(t: int): int { t % 60 }

  predicate MatchesDay(s: Schedule, d: Date, weekday: int) {
    var domMatch := d.day in s.dayOfMonth;
    var dowMatch := weekday in s.dayOfWeek;
    if s.domRestricted && s.dowRestricted then domMatch || dowMatch else domMatch && dowMatch
  }

  ghost predicate Matches(s: Schedule, t: int) {
    && DateOf(DayOf(t)).month in s.month
    && MatchesDay(s, DateOf(DayOf(t)), Weekday(DayOf(t)))
    && HourOf(t) in s.hour
    && MinuteOf(t) in s.minute
  }

  /** The same wall clock time four years later; 29 February spills into March when there is none. */
  function FourYearsOn(d: Date, timeOfDay: int): int
    requires ValidDate(d)
  {
    DayNumber(d.(year := d.year + 4)) * NANOS_PER_DAY + timeOfDay
  }

  ghost function FourYearsAfter(after: int): int {
    FourYearsOn(DateOf(after / NANOS_PER_DAY), after % NANOS_PER_DAY)
  }

  /** Minute `t` lies strictly after `after` and before the search limit. */
  ghost predicate InWindow(after: int, t: int) {
    after < t * NANOS_PER_MINUTE < FourYearsAfter(after)
  }

  /** The skips: the first minute of the next month, day and hour. */
  function NextMonth(d: Date): int
    requires ValidDate(d)
  {
    DayNumber(FirstOfNextMonth(d)) * MINUTES_PER_DAY
  }

  function NextDay(t: int): int { (DayOf(t) + 1) * MINUTES_PER_DAY }

  function NextHour(t: int): int { (t / 60 + 1) * 60 }

  /** None of the minutes from `t` up to `bound` matches. */
  ghost predicate Barren(s: Schedule, t: int, bound: int) {
    t < bound && forall u :: t <= u < bound ==> !Matches(s, u)
  }

  lemma MonthSkip(s: Schedule, t: int)
    requires DateOf(DayOf(t)).month !in s.month
    ensures Barren(s, t, NextMonth(DateOf(DayOf(t))))
  {
    var d := DateOf(DayOf(t));
    NextMonthStarts(d);
    forall u | t <= u < NextMonth(d)
      ensures !Matches(s, u)
    {
      SameMonth(d, DayOf(u));
    }
  }

  lemma DaySkip(s: Schedule, t: int)
    requires !MatchesDay(s, DateOf(DayOf(t)), Weekday(DayOf(t)))
    ensures Barren(s, t, NextDay(t))
  {
    forall u | t <= u < NextDay(t)
      ensures !Matches(s, u)
    {
      assert DayOf(u) == DayOf(t);
    }
  }

  lemma HourSkip(s: Schedule, t: int)
    requires HourOf(t) !in s.hour
    ensures Barren(s, t, NextHour(t))
  {
    forall u | t <= u < NextHour(t)
      ensures !Matches(s, u)
    {
      SameHour(t, u);
    }
  }

  lemma SameHour(t: int, u: int)
    requires t <= u < NextHour(t)
    ensures HourOf(u) == HourOf(t)
  {
    assert u / 60 == t / 60;
    HourFromHours(t);
    HourFromHours(u);
  }

  lemma HourFromHours(t: int)
    ensures HourOf(t) == t / 60 % 24
  {
    var day, rest := t / MINUTES_PER_DAY, t % MINUTES_PER_DAY;
    assert t == 60 * (24 * day + rest / 60) + rest % 60;
    assert t / 60 == 24 * day + rest / 60;
  }

  /** `t` is the least matching minute strictly after `after`. */
  ghost predicate FirstMatch(s: Schedule, after: int, t: int) {
    && after < t * NANOS_PER_MINUTE && Matches(s, t)
    && forall u :: after < u * NANOS_PER_MINUTE && u < t ==> !Matches(s, u)
  }

  /** The least matching minute of the window, or none when the window holds no match. */
  method Next(s: Schedule, after: int) returns (next: Option<int>)
    ensures next.Some? ==> FirstMatch(s, after, next.value) && InWindow(after, next.value)
    ensures next.None? ==> forall u :: InWindow(after, u) ==> !Matches(s, u)
  {
    var t := after / NANOS_PER_MINUTE + 1;
    var start := ComputeDate(after / NANOS_PER_DAY);
    var limit := FourYearsOn(start, after % NANOS_PER_DAY);
    while t * NANOS_PER_MINUTE < limit
      invariant after < t * NANOS_PER_MINUTE
      invariant forall u :: after < u * NANOS_PER_MINUTE && u < t ==> !Matches(s, u)
      decreases limit - t * NANOS_PER_MINUTE
    {
      var d := ComputeDate(DayOf(t));
      if d.month !in s.month {
        MonthSkip(s, t);
        t := NextMonth(d);
      } else if !MatchesDay(s, d, Weekday(DayOf(t))) {
        DaySkip(s, t);
        t := NextDay(t);
      } else if HourOf(t) !in s.hour {
        HourSkip(s, t);
        t := NextHour(t);
      } else if MinuteOf(t) !in s.minute {
        t := t + 1;
      } else {
        return Some(t);
      }
    }
    return None;
  }

  /** Where the search for fire `i` starts: at `from`, then at the previous fire. */
  function Cursor(from: int, fires: seq<int>, i: nat): int
    requires i <= |fires|
  {
    if i == 0 then from else fires[i - 1] * NANOS_PER_MINUTE
  }

  ghost predicate FireOk(s: Schedule, from: int, fires: seq<int>, i: nat)
    requires i < |fires|
  {
    var cursor := Cursor(from, fires, i);
    FirstMatch(s, cursor, fires[i]) && InWindow(cursor, fires[i])
  }

  /** Each fire is the least match in the window its cursor opens. */
  ghost predicate Consecutive(s: Schedule, from: int, fires: seq<int>) {
    forall i {:trigger FireOk(s, from, fires, i)} :: 0 <= i < |fires| ==> FireOk(s, from, fires, i)
  }

  function FireCount(count: int): nat {
    if count <= 0 || count > 20 then NEXT_FIRES_COUNT else count
  }

  /** One to twenty fires are listed as asked for, five on any other request. */
  lemma FireCounts(count: int)
    ensures FireCount(count) == count <==> 0 < count < 21
    ensures FireCount(count) != count ==> FireCount(count) == 5
  {
  }

  /** The list holds the requested number of fires, or stops because the next window holds none. */
  ghost predicate Exhausted(s: Schedule, from: int, fires: seq<int>, count: int) {
    && |fires| <= FireCount(count)
    && (|fires| < FireCount(count) ==> forall u :: InWindow(Cursor(from, fires, |fires|), u) ==> !Matches(s, u))
  }

  method NextFires(s: Schedule, from: int, count: int) returns (fires: seq<int>)
    ensures Consecutive(s, from, fires) && Exhausted(s, from, fires, count)
  {
    fires := [];
    var cursor := from;
    while |fires| < FireCount(count)
      invariant |fires| <= FireCount(count) && cursor == Cursor(from, fires, |fires|)
      invariant Consecutive(s, from, fires)
      decreases FireCount(count) - |fires|
    {
      var next := Next(s, cursor);
      if next.None? {
        break;
      }
      FiresExtend(s, from, fires, next.value);
      fires := fires + [next.value];
      cursor := next.value * NANOS_PER_MINUTE;
    }
  }

  lemma FiresExtend(s: Schedule, from: int, fires: seq<int>, t: int)
    requires Consecutive(s, from, fires)
    requires FirstMatch(s, Cursor(from, fires, |fires|), t) && InWindow(Cursor(from, fires, |fires|), t)
    ensures Consecutive(s, from, fires + [t])
  {
    forall i | 0 <= i <= |fires|
      ensures FireOk(s, from, fires + [t], i)
    {
      assert i < |fires| ==> FireOk(s, from, fires, i);
    }
  }

  lemma FiresPrefix(s: Schedule, from: int, fires: seq<int>, k: nat)
    requires Consecutive(s, from, fires) && k <= |fires|
    ensures Consecutive(s, from, fires[..k])
  {
    forall i | 0 <= i < k
      ensures FireOk(s, from, fires[..k], i)
    {
      assert FireOk(s, from, fires, i);
    }
  }

  lemma FireFollows(s: Schedule, from: int, fires: seq<int>, j: nat)
    requires Consecutive(s, from, fires) && j < |fires|
    ensures Matches(s, fires[j])
    ensures j > 0 ==> fires[j - 1] < fires[j]
    ensures forall u :: Cursor(from, fires, j) < u * NANOS_PER_MINUTE && u < fires[j] ==> !Matches(s, u)
  {
    assert FireOk(s, from, fires, j);
  }

  lemma FiresAscend(s: Schedule, from: int, fires: seq<int>, i: nat, j: nat)
    requires Consecutive(s, from, fires) && i <= j < |fires|
    ensures fires[i] <= fires[j]
    decreases j - i
  {
    if i < j {
      FiresAscend(s, from, fires, i, j - 1);
      FireFollows(s, from, fires, j);
    }
  }

  /** Up to the last listed fire, the list is exactly the matching minutes after `from`. */
  lemma {:induction false} NoFireSkipped(s: Schedule, from: int, fires: seq<int>, u: int)
    requires Consecutive(s, from, fires) && fires != []
    requires from < u * NANOS_PER_MINUTE && u <= fires[|fires| - 1]
    ensures Matches(s, u) <==> u in fires
    decreases |fires|
  {
    var k := |fires| - 1;
    FireFollows(s, from, fires, k);
    if k > 0 && u <= fires[k - 1] {
      FiresPrefix(s, from, fires, k);
      NoFireSkipped(s, from, fires[..k], u);
      assert u in fires ==> u in fires[..k];
    } else if u < fires[k] {
      forall i | 0 <= i < k
        ensures fires[i] < u
      {
        FiresAscend(s, from, fires, i, k - 1);
      }
    }
  }
}
