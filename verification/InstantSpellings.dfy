/** Every way to spell one instant: optional seconds, fractions of one to three digits, and the zone. */
module InstantSpellings {
  import opened Options
  import opened Text
  import opened WaitingInstant

  /** A text built from its parts. */
  function Spelled(head: string, second: string, fraction: string, zone: string): string {
    head + Rest(second, fraction, zone)
  }

  function Rest(second: string, fraction: string, zone: string): string {
    (if second == "" then "" else ":" + second + (if fraction == "" then "" else "." + fraction)) + zone
  }

  predicate Shape(head: string, second: string, fraction: string, zone: string) {
    && IsHead(head) && IsZone(zone)
    && |second| in {0, 2} && AllDigits(second) && |fraction| <= 3 && AllDigits(fraction)
    && (second == "" ==> fraction == "")
  }

  predicate Number(s: string, n: nat) {
    |s| == n && AllDigits(s)
  }

  function HeadOf(year: string, month: string, day: string, hour: string, minute: string): string {
    year + ['-'] + month + ['-'] + day + ['T'] + hour + [':'] + minute
  }

  lemma HeadSlices(year: string, month: string, day: string, hour: string, minute: string)
    requires |year| == 4 && |month| == |day| == |hour| == |minute| == 2
    ensures var s := HeadOf(year, month, day, hour, minute);
            && |s| == 16 && s[4] == '-' && s[7] == '-' && s[10] == 'T' && s[13] == ':'
            && s[..4] == year && s[5..7] == month && s[8..10] == day && s[11..13] == hour && s[14..16] == minute
  {
  }

  /** A head is a four-digit year, month and day between hyphens, a T, and hour and minute around a colon. */
  lemma HeadExactly(s: string)
    ensures IsHead(s) <==>
              exists year, month, day, hour, minute ::
                && s == HeadOf(year, month, day, hour, minute)
                && Number(year, 4) && Number(month, 2) && Number(day, 2) && Number(hour, 2) && Number(minute, 2)
  {
    if IsHead(s) {
      assert s == HeadOf(s[..4], s[5..7], s[8..10], s[11..13], s[14..16]);
      assert Number(s[..4], 4) && Number(s[5..7], 2) && Number(s[8..10], 2) && Number(s[11..13], 2) && Number(s[14..16], 2);
    }
    if year, month, day, hour, minute :|
      && s == HeadOf(year, month, day, hour, minute)
      && Number(year, 4) && Number(month, 2) && Number(day, 2) && Number(hour, 2) && Number(minute, 2) {
      HeadSlices(year, month, day, hour, minute);
    }
  }

  /** A zone is a Z, or a sign with hours and minutes around a colon. */
  lemma ZoneExactly(s: string)
    ensures IsZone(s) <==>
              s == "Z"
              || exists sign, hour, minute ::
                   (sign == '+' || sign == '-') && Number(hour, 2) && Number(minute, 2) && s == [sign] + hour + [':'] + minute
  {
    if IsZone(s) && s != "Z" {
      assert s == [s[0]] + s[1..3] + [':'] + s[4..6] && Number(s[1..3], 2) && Number(s[4..6], 2);
    }
    if sign, hour, minute :| (sign == '+' || sign == '-') && Number(hour, 2) && Number(minute, 2)
                             && s == [sign] + hour + [':'] + minute {
      assert s[0] == sign && s[1..3] == hour && s[3] == ':' && s[4..6] == minute;
    }
  }

  lemma ZoneStarts(zone: string)
    requires IsZone(zone)
    ensures |zone| > 0 && zone[0] in {'Z', '+', '-'} && !IsDigit(zone[0]) && !IsSpace(zone[|zone| - 1])
  {
    assert |zone| == 6 ==> zone[5] == zone[4..6][1] && IsDigit(zone[5]);
  }

  lemma {:induction false} DigitsThen(digits: string, rest: string)
    requires AllDigits(digits) && (rest != [] ==> !IsDigit(rest[0]))
    ensures LeadingDigits(digits + rest) == |digits|
    decreases |digits|
  {
    if digits == [] {
      assert digits + rest == rest;
    } else {
      assert (digits + rest)[1..] == digits[1..] + rest;
      DigitsThen(digits[1..], rest);
    }
  }

  lemma RestWithoutSeconds(head: string, zone: string)
    requires IsHead(head) && IsZone(zone)
    ensures MatchInstant(head + zone) == Some(Match(head, "", "", zone))
  {
    ZoneStarts(zone);
    assert (head + zone)[..16] == head && (head + zone)[16..] == zone;
  }

  lemma RestWithSeconds(head: string, second: string, zone: string, rest: string)
    requires IsHead(head) && |second| == 2 && AllDigits(second) && IsZone(zone) && rest == ":" + second + zone
    ensures MatchInstant(head + rest) == Some(Match(head, second, "", zone))
  {
    ZoneStarts(zone);
    assert (head + rest)[..16] == head && (head + rest)[16..] == rest;
    assert rest[1..3] == second && rest[3..] == zone && rest[3] == zone[0];
  }

  lemma FractionRest(second: string, fraction: string, zone: string, rest: string)
    requires |second| == 2 && rest == ":" + second + "." + fraction + zone
    ensures |rest| == 4 + |fraction| + |zone| && rest[0] == ':' && rest[1..3] == second && rest[3] == '.'
    ensures rest[4..] == fraction + zone
    ensures rest[4..][..|fraction|] == fraction && rest[4 + |fraction|..] == zone
  {
    assert rest[4..] == fraction + zone;
    assert rest[4 + |fraction|..] == rest[4..][|fraction|..];
  }

  lemma RestWithFraction(head: string, second: string, fraction: string, zone: string, rest: string)
    requires IsHead(head) && |second| == 2 && AllDigits(second) && IsZone(zone)
    requires 1 <= |fraction| <= 3 && AllDigits(fraction) && rest == ":" + second + "." + fraction + zone
    ensures MatchInstant(head + rest) == Some(Match(head, second, fraction, zone))
  {
    ZoneStarts(zone);
    assert (head + rest)[..16] == head && (head + rest)[16..] == rest;
    FractionRest(second, fraction, zone, rest);
    DigitsThen(fraction, zone);
  }

  /** The grammar takes a text apart into the parts it was built from. */
  lemma SpelledMatches(head: string, second: string, fraction: string, zone: string)
    requires Shape(head, second, fraction, zone)
    ensures MatchInstant(Spelled(head, second, fraction, zone)) == Some(Match(head, second, fraction, zone))
  {
    var rest := Rest(second, fraction, zone);
    if second == "" {
      assert rest == zone;
      RestWithoutSeconds(head, zone);
    } else if fraction == "" {
      assert rest == ":" + second + zone;
      RestWithSeconds(head, second, zone, rest);
    } else {
      assert rest == ":" + second + "." + fraction + zone;
      RestWithFraction(head, second, fraction, zone, rest);
    }
  }

  lemma SpelledIsTrimmed(head: string, second: string, fraction: string, zone: string)
    requires Shape(head, second, fraction, zone)
    ensures TrimSpace(Spelled(head, second, fraction, zone)) == Spelled(head, second, fraction, zone)
  {
    var text := Spelled(head, second, fraction, zone);
    ZoneStarts(zone);
    assert text[0] == head[0] && IsDigit(head[..4][0]);
    assert text[|text| - 1] == zone[|zone| - 1];
    TrimmedIsFixed(text);
  }

  /** And every text of the grammar is built that way. */
  lemma MatchedIsSpelled(text: string)
    requires MatchInstant(text).Some?
    ensures var m := MatchInstant(text).value;
            Shape(m.head, m.second, m.fraction, m.zone) && text == Spelled(m.head, m.second, m.fraction, m.zone)
  {
    var m := MatchInstant(text).value;
    var rest := text[16..];
    assert text == text[..16] + rest;
    if m.second != "" && m.fraction == "" {
      WholeRest(rest);
      assert rest == Rest(m.second, "", m.zone);
    } else if m.second != "" {
      PartedRest(rest, LeadingDigits(rest[4..]));
      assert rest == Rest(m.second, m.fraction, m.zone);
    }
  }

  lemma WholeRest(rest: string)
    requires |rest| >= 3 && rest[0] == ':'
    ensures rest == ":" + rest[1..3] + rest[3..]
  {
  }

  lemma PartedRest(rest: string, k: nat)
    requires |rest| >= 4 + k && rest[0] == ':' && rest[3] == '.'
    ensures rest == ":" + rest[1..3] + "." + rest[4..][..k] + rest[4 + k..]
  {
    assert rest[4..] == rest[4..][..k] + rest[4..][k..];
    assert rest[4..][k..] == rest[4 + k..];
    assert rest == ":" + rest[1..3] + "." + rest[4..];
  }

  lemma ParseSpelled(head: string, second: string, fraction: string, zone: string)
    requires Shape(head, second, fraction, zone)
    ensures var f := FieldsOf(Match(head, second, fraction, zone));
            ParseAbsoluteInstant(Spelled(head, second, fraction, zone)) ==
            if InRange(f) && OffsetHour(zone) <= 23 && OffsetMinute(zone) <= 59 then Some(InstantOf(f)) else None
  {
    SpelledMatches(head, second, fraction, zone);
    SpelledIsTrimmed(head, second, fraction, zone);
  }

  /** Texts with one head and one zone that agree on seconds and milliseconds parse alike. */
  lemma ParsesAlike(head: string, second: string, fraction: string, second': string, fraction': string, zone: string)
    requires Shape(head, second, fraction, zone) && Shape(head, second', fraction', zone)
    requires Decimal(second) == Decimal(second') && Millis(fraction) == Millis(fraction')
    ensures ParseAbsoluteInstant(Spelled(head, second, fraction, zone))
            == ParseAbsoluteInstant(Spelled(head, second', fraction', zone))
  {
    ParseSpelled(head, second, fraction, zone);
    ParseSpelled(head, second', fraction', zone);
    SameFields(head, second, fraction, second', fraction', zone);
  }

  lemma SameFields(head: string, second: string, fraction: string, second': string, fraction': string, zone: string)
    requires Shape(head, second, fraction, zone) && Shape(head, second', fraction', zone)
    requires Decimal(second) == Decimal(second') && Millis(fraction) == Millis(fraction')
    ensures FieldsOf(Match(head, second, fraction, zone)) == FieldsOf(Match(head, second', fraction', zone))
  {
  }

  lemma Zeros()
    ensures AllDigits("00") && Decimal("00") == 0 && AllDigits("000") && Decimal("000") == 0
  {
    ZeroAppended("");
    ZeroAppended("0");
    ZeroAppended("00");
    assert "" + "0" == "0" && "0" + "0" == "00" && "00" + "0" == "000";
  }

  lemma ZeroAppended(digits: string)
    requires AllDigits(digits)
    ensures AllDigits(digits + "0") && Decimal(digits + "0") == 10 * Decimal(digits)
  {
    assert (digits + "0")[..|digits|] == digits;
  }

  /** A zero at the end of a short fraction changes nothing. */
  lemma PaddedFraction(head: string, second: string, fraction: string, zone: string)
    requires Shape(head, second, fraction, zone) && 1 <= |fraction| <= 2
    ensures Shape(head, second, fraction + "0", zone)
    ensures ParseAbsoluteInstant(Spelled(head, second, fraction, zone))
            == ParseAbsoluteInstant(Spelled(head, second, fraction + "0", zone))
  {
    ZeroAppended(fraction);
    ParsesAlike(head, second, fraction, second, fraction + "0", zone);
  }

  /** No fraction means three zeros. */
  lemma OmittedFraction(head: string, second: string, zone: string)
    requires Shape(head, second, "", zone) && |second| == 2
    ensures ParseAbsoluteInstant(Spelled(head, second, "", zone)) == ParseAbsoluteInstant(Spelled(head, second, "000", zone))
  {
    Zeros();
    ParsesAlike(head, second, "", second, "000", zone);
  }

  /** No seconds means zero seconds. */
  lemma OmittedSeconds(head: string, zone: string)
    requires Shape(head, "", "", zone)
    ensures ParseAbsoluteInstant(Spelled(head, "", "", zone)) == ParseAbsoluteInstant(Spelled(head, "00", "", zone))
  {
    Zeros();
    ParsesAlike(head, "", "", "00", "", zone);
  }

  /** A zone that names hours and minutes ahead of UTC, or behind it. */
  function Zone(ahead: bool, hours: int, minutes: int): (zone: string)
    requires 0 <= hours <= 99 && 0 <= minutes <= 99
    ensures IsZone(zone)
  {
    var zone := [if ahead then '+' else '-'] + Pad2(hours) + ":" + Pad2(minutes);
    assert zone[1..3] == Pad2(hours) && zone[4..6] == Pad2(minutes);
    zone
  }

  /** The same clock reading ahead of UTC is that much earlier, behind UTC that much later; a zone has 24 hours at most. */
  lemma ZoneShifts(head: string, second: string, fraction: string, ahead: bool, hours: int, minutes: int)
    requires Shape(head, second, fraction, "Z") && 0 <= hours <= 99 && 0 <= minutes <= 99
    ensures Shifted(ParseAbsoluteInstant(Spelled(head, second, fraction, "Z")),
                    ParseAbsoluteInstant(Spelled(head, second, fraction, Zone(ahead, hours, minutes))),
                    ahead, hours, minutes)
  {
    var zone := Zone(ahead, hours, minutes);
    ZoneMeans(ahead, hours, minutes);
    ParseSpelled(head, second, fraction, "Z");
    ParseSpelled(head, second, fraction, zone);
    ShiftedFields(head, second, fraction, zone);
    var f, g := FieldsOf(Match(head, second, fraction, "Z")), FieldsOf(Match(head, second, fraction, zone));
    ShiftOf(ParseAbsoluteInstant(Spelled(head, second, fraction, "Z")),
            ParseAbsoluteInstant(Spelled(head, second, fraction, zone)),
            InRange(f), if InRange(f) then InstantOf(f) else 0, if InRange(g) then InstantOf(g) else 0, ahead, hours, minutes);
  }

  /** What `zoned` is to `utc` when both show the same clock reading. */
  predicate Shifted(utc: Option<int>, zoned: Option<int>, ahead: bool, hours: int, minutes: int) {
    var shift := (hours * 3600 + minutes * 60) * NANOS_PER_SECOND;
    zoned == if utc.None? || hours > 23 || minutes > 59 then None
             else Some(if ahead then utc.value - shift else utc.value + shift)
  }

  lemma ShiftOf(utc: Option<int>, zoned: Option<int>, ok: bool, t: int, u: int, ahead: bool, hours: int, minutes: int)
    requires utc == if ok then Some(t) else None
    requires zoned == if ok && hours <= 23 && minutes <= 59 then Some(u) else None
    requires var seconds := hours * 3600 + minutes * 60; ok ==> u == t - (if ahead then seconds else -seconds) * NANOS_PER_SECOND
    ensures Shifted(utc, zoned, ahead, hours, minutes)
  {
  }

  lemma ZoneMeans(ahead: bool, hours: int, minutes: int)
    requires 0 <= hours <= 99 && 0 <= minutes <= 99
    ensures var zone, seconds := Zone(ahead, hours, minutes), hours * 3600 + minutes * 60;
            && OffsetHour(zone) == hours && OffsetMinute(zone) == minutes
            && OffsetSeconds(zone) == (if ahead then seconds else -seconds)
  {
    var zone := Zone(ahead, hours, minutes);
    assert zone[1..3] == Pad2(hours) && zone[4..6] == Pad2(minutes) && zone[0] != 'Z';
    Pad2Value(hours);
    Pad2Value(minutes);
  }

  lemma ShiftedFields(head: string, second: string, fraction: string, zone: string)
    requires Shape(head, second, fraction, "Z") && IsZone(zone)
    ensures var f, g := FieldsOf(Match(head, second, fraction, "Z")), FieldsOf(Match(head, second, fraction, zone));
            && (InRange(f) <==> InRange(g))
            && (InRange(f) ==> InstantOf(g) == InstantOf(f) - OffsetSeconds(zone) * NANOS_PER_SECOND)
  {
  }
}
