/**
 * Absolute instants of waiting policies: a parser and a printer for the date-time subset of ISO 8601
 * that carries an explicit zone (compare sections 5.6 and 5.7 of RFC 3339).
 */
module WaitingInstant {
  import opened Calendar
  import opened Options
  import opened Text

  // Instants are nanoseconds from the calendar's origin.
  const NANOS_PER_MILLI := 1_000_000
  const NANOS_PER_SECOND := 1_000_000_000
  const SECONDS_PER_DAY := 86_400

  /** The fields a text spells: a local date and time of day, and the zone's offset from UTC. */
  datatype Fields = Fields(date: Date, hour: int, minute: int, second: int, millis: int, offset: int)

  /** The parts of a text of the right shape, before any range check. */
  datatype Match = Match(head: string, second: string, fraction: string, zone: string)

  function LeadingDigits(s: string): (k: nat)
    ensures k <= |s| && forall i :: 0 <= i < k ==> IsDigit(s[i])
    ensures k < |s| ==> !IsDigit(s[k])
  {
    if s == [] || !IsDigit(s[0]) then 0 else 1 + LeadingDigits(s[1..])
  }

  predicate IsHead(s: string) {
    && |s| == 16
    && AllDigits(s[..4]) && s[4] == '-' && AllDigits(s[5..7]) && s[7] == '-' && AllDigits(s[8..10])
    && s[10] == 'T' && AllDigits(s[11..13]) && s[13] == ':' && AllDigits(s[14..16])
  }

  predicate IsZone(s: string) {
    || s == "Z"
    || (|s| == 6 && s[0] in {'+', '-'} && AllDigits(s[1..3]) && s[3] == ':' && AllDigits(s[4..6]))
  }

  /** Splits a text into head, optional seconds with optional fraction, and zone. */
  function MatchInstant(t: string): (m: Option<Match>)
    ensures m.Some? ==> IsHead(m.value.head) && IsZone(m.value.zone)
    ensures m.Some? ==> |m.value.second| in {0, 2} && AllDigits(m.value.second)
    ensures m.Some? ==> |m.value.fraction| <= 3 && AllDigits(m.value.fraction)
  {
    if |t| < 16 || !IsHead(t[..16]) then None
    else
      var rest := t[16..];
      if |rest| < 3 || rest[0] != ':' then
        if IsZone(rest) then Some(Match(t[..16], "", "", rest)) else None
      else if !AllDigits(rest[1..3]) then None
      else if |rest| < 4 || rest[3] != '.' then
        if IsZone(rest[3..]) then Some(Match(t[..16], rest[1..3], "", rest[3..])) else None
      else
        var k := LeadingDigits(rest[4..]);
        if 1 <= k <= 3 && IsZone(rest[4 + k..]) then
          Some(Match(t[..16], rest[1..3], rest[4..][..k], rest[4 + k..]))
        else None
  }

  /** A fraction of one to three digits, read as milliseconds; none reads as zero. */
  function Millis(fraction: string): int
    requires AllDigits(fraction) && |fraction| <= 3
  {
    if |fraction| == 0 then 0
    else if |fraction| == 1 then Decimal(fraction) * 100
    else if |fraction| == 2 then Decimal(fraction) * 10
    else Decimal(fraction)
  }

  function OffsetHour(zone: string): int
    requires IsZone(zone)
  {
    if zone == "Z" then 0 else Decimal(zone[1..3])
  }

  function OffsetMinute(zone: string): int
    requires IsZone(zone)
  {
    if zone == "Z" then 0 else Decimal(zone[4..6])
  }

  function OffsetSeconds(zone: string): int
    requires IsZone(zone)
  {
    var seconds := OffsetHour(zone) * 3600 + OffsetMinute(zone) * 60;
    if zone[0] == '-' then -seconds else seconds
  }

  function FieldsOf(m: Match): Fields
    requires IsHead(m.head) && IsZone(m.zone)
    requires |m.second| in {0, 2} && AllDigits(m.second) && |m.fraction| <= 3 && AllDigits(m.fraction)
  {
    Fields(Date(Decimal(m.head[..4]), Decimal(m.head[5..7]), Decimal(m.head[8..10])),
           Decimal(m.head[11..13]), Decimal(m.head[14..16]),
           Decimal(m.second), Millis(m.fraction), OffsetSeconds(m.zone))
  }

  predicate InRange(f: Fields) {
    && ValidDate(f.date)
    && 0 <= f.hour <= 23 && 0 <= f.minute <= 59 && 0 <= f.second <= 59 && 0 <= f.millis <= 999
  }

  function LocalNanos(f: Fields): int
    requires 1 <= f.date.month <= 12
  {
    ((DayNumber(f.date) * SECONDS_PER_DAY) + f.hour * 3600 + f.minute * 60 + f.second) * NANOS_PER_SECOND
    + f.millis * NANOS_PER_MILLI
  }

  function InstantOf(f: Fields): int
    requires 1 <= f.date.month <= 12
  {
    LocalNanos(f) - f.offset * NANOS_PER_SECOND
  }

  function ParseAbsoluteInstant(value: string): Option<int> {
    var m := MatchInstant(TrimSpace(value));
    if m.None? then None
    else
      var f := FieldsOf(m.value);
      if InRange(f) && OffsetHour(m.value.zone) <= 23 && OffsetMinute(m.value.zone) <= 59
      then Some(InstantOf(f)) else None
  }

  function Pad2(n: int): (s: string)
    requires 0 <= n <= 99
    ensures |s| == 2 && AllDigits(s)
  {
    [Digit(n / 10), Digit(n % 10)]
  }

  function Pad3(n: int): (s: string)
    requires 0 <= n <= 999
    ensures |s| == 3 && AllDigits(s)
  {
    [Digit(n / 100)] + Pad2(n % 100)
  }

  function Pad4(n: int): (s: string)
    requires 0 <= n <= 9999
    ensures |s| == 4 && AllDigits(s)
  {
    Pad2(n / 100) + Pad2(n % 100)
  }

  /** At least four digits, with a sign before year zero. */
  function FormatYear(year: int): string {
    if 0 <= year <= 9999 then Pad4(year)
    else if year > 9999 then Digits(year)
    else if year >= -9999 then "-" + Pad4(-year)
    else "-" + Digits(-year)
  }

  function RenderHead(f: Fields): string
    requires InRange(f)
  {
    FormatYear(f.date.year) + "-" + Pad2(f.date.month) + "-" + Pad2(f.date.day) + "T" + Pad2(f.hour) + ":" + Pad2(f.minute)
  }

  function RenderTail(f: Fields, zone: string): string
    requires InRange(f)
  {
    ":" + Pad2(f.second) + "." + Pad3(f.millis) + zone
  }

  function Render(f: Fields, zone: string): string
    requires InRange(f)
  {
    RenderHead(f) + RenderTail(f, zone)
  }

  lemma ClockParts(clock: int)
    requires 0 <= clock < SECONDS_PER_DAY
    ensures 0 <= clock / 3600 <= 23 && 0 <= clock % 3600 / 60 <= 59
    ensures clock / 3600 * 3600 + clock % 3600 / 60 * 60 + clock % 60 == clock
  {
    var rest := clock % 3600;
    assert clock == clock / 3600 * 3600 + rest;
    assert rest == rest / 60 * 60 + rest % 60;
  }

  lemma NanoParts(local: int)
    ensures var nanos := local % NANOS_PER_SECOND;
            local / NANOS_PER_SECOND * NANOS_PER_SECOND + nanos / NANOS_PER_MILLI * NANOS_PER_MILLI == TruncateToMillis(local)
    ensures 0 <= local % NANOS_PER_SECOND / NANOS_PER_MILLI <= 999
  {
    var seconds, nanos := local / NANOS_PER_SECOND, local % NANOS_PER_SECOND;
    ModOf(local, 1000 * seconds + nanos / NANOS_PER_MILLI, nanos % NANOS_PER_MILLI);
  }

  lemma ModOf(x: int, q: int, r: int)
    requires x == q * NANOS_PER_MILLI + r && 0 <= r < NANOS_PER_MILLI
    ensures x % NANOS_PER_MILLI == r
  {
  }

  lemma TruncateShift(t: int, k: int)
    ensures TruncateToMillis(t + k * NANOS_PER_SECOND) == TruncateToMillis(t) + k * NANOS_PER_SECOND
  {
    ModOf(t + k * NANOS_PER_SECOND, t / NANOS_PER_MILLI + 1000 * k, t % NANOS_PER_MILLI);
  }

  /** The wall clock `offset` seconds ahead of UTC, to the millisecond. */
  ghost function LocalFields(t: int, offset: int): (f: Fields)
    ensures InRange(f) && InstantOf(f) == TruncateToMillis(t) && f.offset == offset
  {
    var local := t + offset * NANOS_PER_SECOND;
    var seconds := local / NANOS_PER_SECOND;
    var clock := seconds % SECONDS_PER_DAY;
    ClockParts(clock);
    NanoParts(local);
    TruncateShift(t, offset);
    Fields(DateOf(seconds / SECONDS_PER_DAY), clock / 3600, clock % 3600 / 60, clock % 60,
           local % NANOS_PER_SECOND / NANOS_PER_MILLI, offset)
  }

  function TruncateToMillis(t: int): int {
    t - t % NANOS_PER_MILLI
  }

  ghost function UtcYear(t: int): int {
    LocalFields(t, 0).date.year
  }

  ghost function FormatWaitingInstant(t: int): string {
    Render(LocalFields(t, 0), "Z")
  }

  method FormatInstant(t: int) returns (text: string)
    ensures text == FormatWaitingInstant(t)
  {
    var seconds := t / NANOS_PER_SECOND;
    var clock := seconds % SECONDS_PER_DAY;
    var date := ComputeDate(seconds / SECONDS_PER_DAY);
    ClockParts(clock);
    NanoParts(t);
    text := Render(Fields(date, clock / 3600, clock % 3600 / 60, clock % 60,
                          t % NANOS_PER_SECOND / NANOS_PER_MILLI, 0), "Z");
  }

  // ----- reading back what is printed

  lemma DecimalTwo(s: string)
    requires |s| == 2 && AllDigits(s)
    ensures Decimal(s) == 10 * DigitValue(s[0]) + DigitValue(s[1])
  {
    assert s[..1][..0] == [];
    assert Decimal(s[..1]) == DigitValue(s[0]);
  }

  lemma DecimalAppend(s: string, t: string)
    requires AllDigits(s) && |t| == 2 && AllDigits(t)
    ensures AllDigits(s + t) && Decimal(s + t) == 100 * Decimal(s) + Decimal(t)
  {
    var u := s + t;
    assert u[..|u| - 1] == s + [t[0]];
    assert (s + [t[0]])[..|s|] == s;
    DecimalTwo(t);
  }

  lemma Pad2Value(n: int)
    requires 0 <= n <= 99
    ensures Decimal(Pad2(n)) == n
  {
    DecimalTwo(Pad2(n));
  }

  lemma Pad3Value(n: int)
    requires 0 <= n <= 999
    ensures Decimal(Pad3(n)) == n
  {
    var d := [Digit(n / 100)];
    assert d[..0] == [];
    assert Decimal(d) == n / 100;
    DecimalAppend(d, Pad2(n % 100));
    Pad2Value(n % 100);
  }

  lemma Pad4Value(n: int)
    requires 0 <= n <= 9999
    ensures Decimal(Pad4(n)) == n
  {
    DecimalAppend(Pad2(n / 100), Pad2(n % 100));
    Pad2Value(n / 100);
    Pad2Value(n % 100);
  }

  lemma HeadParts(f: Fields)
    requires InRange(f) && 0 <= f.date.year <= 9999
    ensures var s := RenderHead(f);
            && IsHead(s) && s[..4] == Pad4(f.date.year) && s[5..7] == Pad2(f.date.month) && s[8..10] == Pad2(f.date.day)
            && s[11..13] == Pad2(f.hour) && s[14..16] == Pad2(f.minute)
  {
    var s, y := RenderHead(f), Pad4(f.date.year);
    var mo, d, h, mi := Pad2(f.date.month), Pad2(f.date.day), Pad2(f.hour), Pad2(f.minute);
    assert s == [y[0], y[1], y[2], y[3], '-', mo[0], mo[1], '-', d[0], d[1], 'T', h[0], h[1], ':', mi[0], mi[1]];
    assert s[..4] == y;
    assert s[5..7] == mo;
    assert s[8..10] == d;
    assert s[11..13] == h;
    assert s[14..16] == mi;
  }

  lemma TailParts(f: Fields, zone: string)
    requires InRange(f) && IsZone(zone)
    ensures var rest := RenderTail(f, zone);
            && |rest| == 7 + |zone| && rest[0] == ':' && rest[1..3] == Pad2(f.second) && rest[3] == '.'
            && rest[4..][..3] == Pad3(f.millis) && rest[7..] == zone && LeadingDigits(rest[4..]) == 3
  {
    var digits := RenderTail(f, zone)[4..];
    assert digits == Pad3(f.millis) + zone;
    assert !IsDigit(digits[3]);
    assert forall i :: 0 <= i < 3 ==> digits[i] == Pad3(f.millis)[i];
  }

  lemma TailMatches(head: string, f: Fields, zone: string)
    requires IsHead(head) && InRange(f) && IsZone(zone)
    ensures MatchInstant(head + RenderTail(f, zone)) == Some(Match(head, Pad2(f.second), Pad3(f.millis), zone))
  {
    var t, rest := head + RenderTail(f, zone), RenderTail(f, zone);
    assert t[..16] == head && t[16..] == rest;
    TailParts(f, zone);
  }

  lemma RenderIsTrimmed(f: Fields, zone: string)
    requires InRange(f) && IsZone(zone)
    ensures TrimSpace(Render(f, zone)) == Render(f, zone)
  {
    var text, year := Render(f, zone), FormatYear(f.date.year);
    assert text[0] == year[0] && (year[0] == '-' || IsDigit(year[0]));
    assert text[|text| - 1] == zone[|zone| - 1];
    TrimmedIsFixed(text);
  }

  lemma RenderedFields(f: Fields, zone: string)
    requires InRange(f) && 0 <= f.date.year <= 9999 && IsZone(zone) && OffsetSeconds(zone) == f.offset
    requires IsHead(RenderHead(f))
    ensures FieldsOf(Match(RenderHead(f), Pad2(f.second), Pad3(f.millis), zone)) == f
  {
    HeadParts(f);
    Pad4Value(f.date.year);
    Pad2Value(f.date.month);
    Pad2Value(f.date.day);
    Pad2Value(f.hour);
    Pad2Value(f.minute);
    Pad2Value(f.second);
    Pad3Value(f.millis);
  }

  /** Printed fields in a supported year read back as themselves. */
  lemma ParseRendered(f: Fields, zone: string)
    requires InRange(f) && 0 <= f.date.year <= 9999
    requires IsZone(zone) && OffsetHour(zone) <= 23 && OffsetMinute(zone) <= 59 && OffsetSeconds(zone) == f.offset
    ensures ParseAbsoluteInstant(Render(f, zone)) == Some(InstantOf(f))
  {
    RenderIsTrimmed(f, zone);
    HeadParts(f);
    TailMatches(RenderHead(f), f, zone);
    RenderedFields(f, zone);
  }

  /** A year outside 0000-9999 does not print in the accepted grammar. */
  lemma UnsupportedYearRejected(f: Fields, zone: string)
    requires InRange(f) && !(0 <= f.date.year <= 9999) && IsZone(zone)
    ensures ParseAbsoluteInstant(Render(f, zone)) == None
  {
    var text, year := Render(f, zone), FormatYear(f.date.year);
    RenderIsTrimmed(f, zone);
    assert forall i :: 0 <= i < |year| ==> text[i] == year[i];
    if f.date.year < 0 {
      assert text[0] == '-';
      assert text[..16][..4][0] == '-';
    } else {
      assert IsDigit(text[4]);
      assert text[..16][4] == text[4];
    }
  }

  /**
   * Printing then parsing gives the instant truncated to the millisecond when its UTC year has four
   * digits, and is refused otherwise.
   */
  lemma FormatThenParse(t: int)
    ensures ParseAbsoluteInstant(FormatWaitingInstant(t)) ==
            if 0 <= UtcYear(t) <= 9999 then Some(TruncateToMillis(t)) else None
  {
    var f := LocalFields(t, 0);
    if 0 <= UtcYear(t) <= 9999 {
      ParseRendered(f, "Z");
    } else {
      UnsupportedYearRejected(f, "Z");
    }
  }

  /** The instant a printed text reads back as. */
  ghost function ReadBack(t: int): Option<int> {
    ParseAbsoluteInstant(FormatWaitingInstant(t))
  }

  lemma ReadBackExact(t: int)
    requires TruncateToMillis(t) == t
    ensures ReadBack(t) == if 0 <= UtcYear(t) <= 9999 then Some(t) else None
  {
    FormatThenParse(t);
  }

  function ZoneOf(offset: int): (zone: string)
    requires -86_400 < offset < 86_400 && offset % 60 == 0
    ensures IsZone(zone) && OffsetHour(zone) <= 23 && OffsetMinute(zone) <= 59 && OffsetSeconds(zone) == offset
  {
    var minutes := (if offset < 0 then -offset else offset) / 60;
    var zone := [if offset < 0 then '-' else '+'] + Pad2(minutes / 60) + ":" + Pad2(minutes % 60);
    assert zone[1..3] == Pad2(minutes / 60) && zone[4..6] == Pad2(minutes % 60);
    Pad2Value(minutes / 60);
    Pad2Value(minutes % 60);
    zone
  }

  lemma ClockUnique(h: int, m: int, s: int)
    requires 0 <= h <= 23 && 0 <= m <= 59 && 0 <= s <= 59
    ensures var clock := h * 3600 + m * 60 + s;
            0 <= clock < SECONDS_PER_DAY && clock / 3600 == h && clock % 3600 / 60 == m && clock % 60 == s
  {
    var clock := h * 3600 + m * 60 + s;
    assert clock == 3600 * h + (m * 60 + s);
    assert clock == 60 * (60 * h + m) + s;
  }

  lemma NanosUnique(seconds: int, millis: int)
    requires 0 <= millis <= 999
    ensures var local := seconds * NANOS_PER_SECOND + millis * NANOS_PER_MILLI;
            local / NANOS_PER_SECOND == seconds && local % NANOS_PER_SECOND / NANOS_PER_MILLI == millis
  {
  }

  lemma SecondsUnique(day: int, clock: int)
    requires 0 <= clock < SECONDS_PER_DAY
    ensures (day * SECONDS_PER_DAY + clock) / SECONDS_PER_DAY == day && (day * SECONDS_PER_DAY + clock) % SECONDS_PER_DAY == clock
  {
  }

  /** Fields in range are the wall clock of the instant they denote. */
  lemma FieldsUnique(f: Fields)
    requires InRange(f)
    ensures LocalFields(InstantOf(f), f.offset) == f
    ensures TruncateToMillis(InstantOf(f)) == InstantOf(f)
  {
    var day, clock := DayNumber(f.date), f.hour * 3600 + f.minute * 60 + f.second;
    ClockUnique(f.hour, f.minute, f.second);
    SecondsUnique(day, clock);
    NanosUnique(day * SECONDS_PER_DAY + clock, f.millis);
    DateOfDayNumber(f.date);
    var g := LocalFields(InstantOf(f), f.offset);
    assert g == f;
  }

  /** An accepted text is never normalised: at its own offset the clock shows exactly the spelled fields. */
  lemma AcceptedKeepsFields(text: string)
    requires ParseAbsoluteInstant(text).Some?
    ensures var f := FieldsOf(MatchInstant(TrimSpace(text)).value);
            InRange(f) && LocalFields(ParseAbsoluteInstant(text).value, f.offset) == f
  {
    FieldsUnique(FieldsOf(MatchInstant(TrimSpace(text)).value));
  }

  /** Printing an accepted text gives its canonical spelling, exactly when the UTC year has four digits. */
  lemma ParseThenFormat(text: string)
    requires ParseAbsoluteInstant(text).Some?
    ensures var t := ParseAbsoluteInstant(text).value;
            ParseAbsoluteInstant(FormatWaitingInstant(t)) == Some(t) <==> 0 <= UtcYear(t) <= 9999
  {
    FieldsUnique(FieldsOf(MatchInstant(TrimSpace(text)).value));
    FormatThenParse(ParseAbsoluteInstant(text).value);
  }

  /** Every offset spelling of an instant parses to it, and all of them print as the same UTC text. */
  lemma OffsetSpellingsAgree(t: int, offset: int)
    requires -86_400 < offset < 86_400 && offset % 60 == 0
    requires 0 <= LocalFields(t, offset).date.year <= 9999
    ensures var parsed := ParseAbsoluteInstant(Render(LocalFields(t, offset), ZoneOf(offset)));
            parsed == Some(TruncateToMillis(t)) && FormatWaitingInstant(parsed.value) == FormatWaitingInstant(t)
  {
    ParseRendered(LocalFields(t, offset), ZoneOf(offset));
    FieldsUnique(LocalFields(t, 0));
  }

  /**
   * Any text of the grammar, with or without seconds, with any fraction and any spelling of its zone, parses to an
   * instant exactly when it spells that instant's wall clock at its own offset.
   */
  lemma SpellingsExactly(text: string, t: int)
    requires MatchInstant(TrimSpace(text)).Some?
    ensures var m := MatchInstant(TrimSpace(text)).value;
            var f := FieldsOf(m);
            ParseAbsoluteInstant(text) == Some(TruncateToMillis(t)) <==>
              f == LocalFields(t, f.offset) && OffsetHour(m.zone) <= 23 && OffsetMinute(m.zone) <= 59
  {
    var m := MatchInstant(TrimSpace(text)).value;
    var f := FieldsOf(m);
    if ParseAbsoluteInstant(text) == Some(TruncateToMillis(t)) {
      FieldsUnique(f);
      SameMilli(t, f.offset);
    }
  }

  lemma SameMilli(t: int, offset: int)
    ensures LocalFields(TruncateToMillis(t), offset) == LocalFields(t, offset)
  {
    FieldsUnique(LocalFields(t, offset));
  }

  /** So two accepted texts that spell one instant's wall clocks print alike, however they are spelled. */
  lemma SpellingsPrintAlike(a: string, b: string, t: int)
    ensures Spells(a, t) && Spells(b, t) ==>
              FormatWaitingInstant(ParseAbsoluteInstant(a).value) == FormatWaitingInstant(ParseAbsoluteInstant(b).value)
              == FormatWaitingInstant(t)
  {
    if Spells(a, t) && Spells(b, t) {
      SpellingsExactly(a, t);
      SpellingsExactly(b, t);
      SameMilli(t, 0);
    }
  }

  /** An accepted text that shows the wall clock of `t` at its own offset. */
  ghost predicate Spells(text: string, t: int) {
    ParseAbsoluteInstant(text).Some? &&
    var f := FieldsOf(MatchInstant(TrimSpace(text)).value);
    f == LocalFields(t, f.offset)
  }
}
