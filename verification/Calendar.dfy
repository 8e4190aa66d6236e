/**
 * The proleptic Gregorian calendar. Day 0 is 1 January of year 1, a Monday, which is also where
 * the runtime anchors the truncation of instants to whole days.
 */
module Calendar {
  datatype Date = Date(year: int, month: int, day: int)

  const DAYS_PER_CYCLE := 146097

  predicate IsLeap(year: int) {
    year % 4 == 0 && (year % 100 != 0 || year % 400 == 0)
  }

  function DaysInMonth(year: int, month: int): (days: int)
    ensures 28 <= days <= 31
  {
    if month == 2 then
      if IsLeap(year) then 29 else 28
    else if month in {4, 6, 9, 11} then 30
    else 31
  }

  /** The month lengths alternate from 31 in January, and again from 31 in August, February apart. */
  lemma MonthLengths(year: int, month: int)
    requires 1 <= month <= 12
    ensures DaysInMonth(year, month) == if month == 2 then (if IsLeap(year) then 29 else 28)
                                        else if month < 8 then 30 + month % 2 else 31 - month % 2
  {
  }

  predicate ValidDate(d: Date) {
    1 <= d.month <= 12 && 1 <= d.day <= DaysInMonth(d.year, d.month)
  }

  function DaysBeforeYear(year: int): int {
    var y := year - 1;
    365 * y + y / 4 - y / 100 + y / 400
  }

  function DaysBeforeMonth(year: int, month: int): int
    requires 1 <= month <= 13
    decreases month
  {
    if month == 1 then 0 else DaysBeforeMonth(year, month - 1) + DaysInMonth(year, month - 1)
  }

  /** Counts days without checking the day of the month, so an excess day spills into the next month. */
  function DayNumber(d: Date): int
    requires 1 <= d.month <= 12
  {
    DaysBeforeYear(d.year) + DaysBeforeMonth(d.year, d.month) + d.day - 1
  }

  function DaysInYear(year: int): int {
    if IsLeap(year) then 366 else 365
  }

  lemma DivStep(x: int)
    ensures x / 4 - (x - 1) / 4 == if x % 4 == 0 then 1 else 0
    ensures x / 100 - (x - 1) / 100 == if x % 100 == 0 then 1 else 0
    ensures x / 400 - (x - 1) / 400 == if x % 400 == 0 then 1 else 0
  {
  }

  lemma Multiples(x: int)
    ensures x % 100 == 0 ==> x % 4 == 0
    ensures x % 400 == 0 ==> x % 100 == 0
  {
    assert x == 100 * (x / 100) + x % 100;
    assert x == 400 * (x / 400) + x % 400;
    assert x % 100 == 0 ==> x == 4 * (25 * (x / 100));
    assert x % 400 == 0 ==> x == 100 * (4 * (x / 400));
  }

  lemma YearLength(year: int)
    ensures DaysBeforeYear(year + 1) == DaysBeforeYear(year) + DaysInYear(year)
  {
    DivStep(year);
    Multiples(year);
  }

  lemma TwelveMonths(year: int)
    ensures DaysBeforeMonth(year, 13) == DaysInYear(year)
  {
    assert DaysBeforeMonth(year, 5) == DaysBeforeMonth(year, 3) + 61;
    assert DaysBeforeMonth(year, 9) == DaysBeforeMonth(year, 5) + 123;
    assert DaysBeforeMonth(year, 13) == DaysBeforeMonth(year, 9) + 122;
  }

  lemma YearsGrow(y1: int, y2: int)
    requires y1 <= y2
    ensures DaysBeforeYear(y1) <= DaysBeforeYear(y2)
    ensures y1 < y2 ==> DaysBeforeYear(y1) + DaysInYear(y1) <= DaysBeforeYear(y2)
    decreases y2 - y1
  {
    if y1 < y2 {
      YearLength(y1);
      YearsGrow(y1 + 1, y2);
    }
  }

  lemma MonthsGrow(year: int, m1: int, m2: int)
    requires 1 <= m1 <= m2 <= 13
    ensures DaysBeforeMonth(year, m1) <= DaysBeforeMonth(year, m2)
    ensures m1 < m2 ==> DaysBeforeMonth(year, m1) + DaysInMonth(year, m1) <= DaysBeforeMonth(year, m2)
    decreases m2 - m1
  {
    if m1 < m2 {
      MonthsGrow(year, m1 + 1, m2);
    }
  }

  function FindYear(n: int, year: int): (r: int)
    requires DaysBeforeYear(year) <= n
    ensures DaysBeforeYear(r) <= n < DaysBeforeYear(r + 1)
    decreases n - DaysBeforeYear(year)
  {
    YearLength(year);
    if n < DaysBeforeYear(year + 1) then year else FindYear(n, year + 1)
  }

  function FindMonth(n: int, year: int, month: int): (r: int)
    requires 1 <= month <= 12 && DaysBeforeMonth(year, month) <= n < DaysInYear(year)
    ensures 1 <= r <= 12 && DaysBeforeMonth(year, r) <= n < DaysBeforeMonth(year, r + 1)
    decreases 12 - month
  {
    TwelveMonths(year);
    if n < DaysBeforeMonth(year, month + 1) then month else FindMonth(n, year, month + 1)
  }

  function CivilDate(n: int): (d: Date)
    ensures ValidDate(d) && DayNumber(d) == n
  {
    var year := FindYear(n, n / DAYS_PER_CYCLE * 400 + 1);
    YearLength(year);
    var rest := n - DaysBeforeYear(year);
    var month := FindMonth(rest, year, 1);
    Date(year, month, rest - DaysBeforeMonth(year, month) + 1)
  }

  lemma DateExists(n: int)
    ensures exists d :: ValidDate(d) && DayNumber(d) == n
  {
    var d := CivilDate(n);
  }

  /** The date with a given day number; DateOfDayNumber shows it is the only one. */
  ghost function DateOf(n: int): (d: Date)
    ensures ValidDate(d) && DayNumber(d) == n
  {
    DateExists(n);
    var d :| ValidDate(d) && DayNumber(d) == n;
    d
  }

  predicate Earlier(a: Date, b: Date) {
    || a.year < b.year
    || (a.year == b.year && (a.month < b.month || (a.month == b.month && a.day < b.day)))
  }

  /** Day numbers order dates as the calendar does. */
  lemma DayNumberMonotone(a: Date, b: Date)
    requires ValidDate(a) && ValidDate(b) && Earlier(a, b)
    ensures DayNumber(a) < DayNumber(b)
  {
    TwelveMonths(a.year);
    MonthsGrow(a.year, a.month, 13);
    MonthsGrow(b.year, 1, b.month);
    if a.year < b.year {
      YearsGrow(a.year, b.year);
    } else if a.month < b.month {
      MonthsGrow(a.year, a.month, b.month);
    }
  }

  /** A valid date is the date of its own number, so no other date shares it. */
  lemma DateOfDayNumber(d: Date)
    requires ValidDate(d)
    ensures DateOf(DayNumber(d)) == d
  {
    var e := DateOf(DayNumber(d));
    if Earlier(d, e) {
      DayNumberMonotone(d, e);
    } else if Earlier(e, d) {
      DayNumberMonotone(e, d);
    }
  }

  method ComputeDate(n: int) returns (d: Date)
    ensures d == DateOf(n)
  {
    d := CivilDate(n);
    DateOfDayNumber(d);
  }

  /** Sunday is 0. */
  function Weekday(n: int): (w: int)
    ensures 0 <= w <= 6
  {
    (n + 1) % 7
  }

  function FirstOfNextMonth(d: Date): (f: Date)
    requires ValidDate(d)
    ensures ValidDate(f)
  {
    if d.month == 12 then Date(d.year + 1, 1, 1) else Date(d.year, d.month + 1, 1)
  }

  lemma NextMonthStarts(d: Date)
    requires ValidDate(d)
    ensures DayNumber(FirstOfNextMonth(d)) == DayNumber(d) - d.day + 1 + DaysInMonth(d.year, d.month)
  {
    if d.month == 12 {
      TwelveMonths(d.year);
      YearLength(d.year);
    }
  }

  /** Every day before the next month starts is in the same month. */
  lemma SameMonth(d: Date, k: int)
    requires ValidDate(d) && DayNumber(d) <= k < DayNumber(FirstOfNextMonth(d))
    ensures DateOf(k) == d.(day := d.day + (k - DayNumber(d)))
  {
    NextMonthStarts(d);
    var e := d.(day := d.day + (k - DayNumber(d)));
    assert DayNumber(e) == k;
    DateOfDayNumber(e);
  }
}
