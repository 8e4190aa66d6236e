/** The texts of cron expressions: which parts are accepted, what they name, and weekly schedules from their text. */
module CronParts {
  import opened Calendar
  import opened Options
  import opened Text
  import opened CronSchedule
  import opened CronExpression
  import opened CronWeekdays

  ghost predicate Digital(s: string) {
    s != [] && AllDigits(s)
  }

  /** Decimal digits with an optional sign, within 64 bits. */
  ghost predicate Numeral(s: string, n: int) {
    && -9_223_372_036_854_775_808 <= n <= 9_223_372_036_854_775_807
    && (|| (Digital(s) && n == Decimal(s))
        || (s != [] && s[0] == '+' && Digital(s[1..]) && n == Decimal(s[1..]))
        || (s != [] && s[0] == '-' && Digital(s[1..]) && n + Decimal(s[1..]) == 0))
  }

  lemma AtoiExactly(s: string, n: int)
    ensures Numeral(s, n) <==> Atoi(s) == Some(n)
  {
  }

  /** A star, a single number, or two numbers in order joined by a hyphen. */
  ghost predicate SpellsRange(range: string, spec: FieldSpec, p: Part) {
    || (range == "*" && p.low == spec.min && p.high == spec.max && p.star)
    || ('-' !in range && Numeral(range, p.low) && p.high == p.low && !p.star)
    || (p.low <= p.high && !p.star
        && exists a, b :: '-' !in a && range == a + ['-'] + b && Numeral(a, p.low) && Numeral(b, p.high))
  }

  /** A range within the field's bounds, alone or followed by a slash and a positive step. */
  ghost predicate SpellsPart(part: string, spec: FieldSpec, p: Part) {
    && spec.min <= p.low && p.high <= spec.max
    && (|| ('/' !in part && SpellsRange(part, spec, p) && p.step == 1)
        || (p.step >= 1
            && exists range, k :: '/' !in range && part == range + ['/'] + k && SpellsRange(range, spec, p) && Numeral(k, p.step)))
  }

  lemma NoStar(range: string, n: int)
    requires range == "*"
    ensures '-' !in range && !Numeral(range, n)
  {
  }

  lemma RangeExactly(range: string, spec: FieldSpec, p: Part)
    ensures SpellsRange(range, spec, p) <==>
              if range == "*" then p.low == spec.min && p.high == spec.max && p.star
              else if '-' in range then
                !p.star && p.low <= p.high && Numeral(Before(range, '-'), p.low) && Numeral(After(range, '-'), p.high)
              else !p.star && Numeral(range, p.low) && p.high == p.low
  {
    if range == "*" {
      NoStar(range, p.low);
    }
    if '-' in range {
      CutJoins(range, '-');
    }
    forall a, b | '-' !in a && range == a + ['-'] + b
      ensures '-' in range && a == Before(range, '-') && b == After(range, '-')
    {
      CutOf(a, '-', b);
      assert range[|a|] == '-';
    }
  }

  lemma StepExactly(part: string, spec: FieldSpec, p: Part)
    ensures SpellsPart(part, spec, p) <==>
              spec.min <= p.low && p.high <= spec.max
              && if '/' in part then SpellsRange(Before(part, '/'), spec, p) && p.step >= 1 && Numeral(After(part, '/'), p.step)
                 else SpellsRange(part, spec, p) && p.step == 1
  {
    if '/' in part {
      CutJoins(part, '/');
    }
    forall range, k | '/' !in range && part == range + ['/'] + k
      ensures '/' in part && range == Before(part, '/') && k == After(part, '/')
    {
      CutOf(range, '/', k);
      assert part[|range|] == '/';
    }
  }

  /** A part is read as `p` exactly when it spells `p`. */
  lemma PartExactly(part: string, spec: FieldSpec, p: Part)
    ensures SpellsPart(part, spec, p) <==> ParsePart(part, spec) == Some(p)
  {
    StepExactly(part, spec, p);
    var range := if '/' in part then Before(part, '/') else part;
    RangeExactly(range, spec, p);
    AtoiExactly(After(part, '/'), p.step);
    AtoiExactly(range, p.low);
    AtoiExactly(Before(range, '-'), p.low);
    AtoiExactly(After(range, '-'), p.high);
  }

  /** A field is read part by part, between commas. */
  lemma FieldExactly(first: string, rest: string, spec: FieldSpec)
    requires ',' !in first
    ensures WellFormedField(first + [','] + rest, spec) <==> ParsePart(first, spec).Some? && WellFormedField(rest, spec)
    ensures forall v :: Named(Split(first + [','] + rest, ','), spec, v) <==>
              (ParsePart(first, spec).Some? && InPart(ParsePart(first, spec).value, v)) || Named(Split(rest, ','), spec, v)
    ensures Split(first, ',') == [first]
  {
    SplitOff(first, ',', rest);
    var parts := [first] + Split(rest, ',');
    assert forall p :: p in parts <==> p == first || p in Split(rest, ',');
  }

  /** Words between blanks, with or without blanks around them. */
  function Spaced(words: seq<string>, gaps: seq<string>): string
    requires |gaps| == |words| + 1
  {
    if words == [] then gaps[0] else gaps[0] + words[0] + Spaced(words[1..], gaps[1..])
  }

  ghost predicate Separated(words: seq<string>, gaps: seq<string>) {
    && |gaps| == |words| + 1 && (forall w :: w in words ==> Visible(w)) && (forall g :: g in gaps ==> Blank(g))
    && forall i :: 0 < i < |words| ==> gaps[i] != []
  }

  lemma SpacedBegins(words: seq<string>, gaps: seq<string>)
    requires Separated(words, gaps) && (words != [] ==> gaps[0] != [])
    ensures Spaced(words, gaps) != [] ==> IsSpace(Spaced(words, gaps)[0])
  {
    assert gaps[0] in gaps;
    assert gaps[0] != [] ==> gaps[0][0] in gaps[0];
  }

  lemma {:induction false} SpacedFields(words: seq<string>, gaps: seq<string>)
    requires Separated(words, gaps)
    ensures Fields(Spaced(words, gaps)) == words
    decreases |words|
  {
    assert gaps[0] in gaps;
    if words == [] {
      BlankFields(gaps[0]);
    } else {
      assert Separated(words[1..], gaps[1..]) by {
        assert forall i :: 0 < i < |words[1..]| ==> gaps[1..][i] == gaps[i + 1];
      }
      if words[1..] != [] {
        assert gaps[1..][0] == gaps[1];
      }
      SpacedBegins(words[1..], gaps[1..]);
      FieldsOff(gaps[0], words[0], Spaced(words[1..], gaps[1..]));
      SpacedFields(words[1..], gaps[1..]);
      assert words == [words[0]] + words[1..];
    }
  }

  lemma BlankFields(a: string)
    requires Blank(a)
    ensures Fields(a) == []
  {
    TrimLeftDrops(a, []);
    assert a + [] == a;
  }

  lemma {:induction false} TrimKeepsFields(s: string)
    ensures Fields(TrimSpace(s)) == Fields(s)
  {
    FieldsOfTrimLeft(s);
    FieldsOfTrimRight(TrimLeft(s));
  }

  lemma FieldsOfTrimLeft(s: string)
    ensures Fields(TrimLeft(s)) == Fields(s)
  {
    var t := TrimLeft(s);
    assert TrimLeft(t) == t;
  }

  lemma {:induction false} FieldsOfTrimRight(s: string)
    ensures Fields(TrimRight(s)) == Fields(s)
    decreases |s|
  {
    if s != [] && IsSpace(s[|s| - 1]) {
      FieldsOfTrimRight(s[..|s| - 1]);
      LastBlank(s[..|s| - 1], s[|s| - 1]);
      assert s == s[..|s| - 1] + [s[|s| - 1]];
    }
  }

  lemma {:induction false} LastBlank(s: string, c: char)
    requires IsSpace(c)
    ensures Fields(s + [c]) == Fields(s)
    decreases |s|
  {
    TrimLeftLast(s, c);
    var t := TrimLeft(s);
    if t != [] {
      var w := TakeWord(t);
      TakeWordLast(t, c);
      assert (t + [c])[|w|..] == t[|w|..] + [c];
      LastBlank(t[|w|..], c);
    }
  }

  lemma {:induction false} TrimLeftLast(s: string, c: char)
    requires IsSpace(c)
    ensures TrimLeft(s + [c]) == if TrimLeft(s) == [] then [] else TrimLeft(s) + [c]
  {
    if s == [] {
      assert s + [c] == [c];
    } else {
      assert (s + [c])[1..] == s[1..] + [c];
      TrimLeftLast(s[1..], c);
    }
  }

  lemma {:induction false} TakeWordLast(s: string, c: char)
    requires IsSpace(c)
    ensures TakeWord(s + [c]) == TakeWord(s)
  {
    if s != [] {
      assert (s + [c])[1..] == s[1..] + [c];
      TakeWordLast(s[1..], c);
    }
  }

  /** An expression is read word by word, whatever blanks stand around the words. */
  lemma ExpressionFields(words: seq<string>, gaps: seq<string>)
    requires Separated(words, gaps)
    ensures Fields(TrimSpace(Spaced(words, gaps))) == words
  {
    TrimKeepsFields(Spaced(words, gaps));
    SpacedFields(words, gaps);
  }

  // ----- weekly schedules from their text

  lemma SingleField(n: nat, spec: FieldSpec, values: set<int>, restricted: bool)
    requires spec.min <= n <= spec.max < 100 && Means(Digits(n), spec, values, restricted)
    ensures values == {n} && restricted
  {
    var text := Digits(n);
    DecimalOfDigits(n);
    assert '-' !in text && '/' !in text && ',' !in text;
    SplitOff(text, ',', []);
    var p := Part(n, n, 1, false);
    assert SpellsRange(text, spec, p);
    PartExactly(text, spec, p);
    assert text in Split(text, ',');
    forall v
      ensures v in values <==> v == n
    {
      if InPart(p, v) {
        PartRange(p, v);
      }
      assert StepAt(p, 0) == n;
    }
    assert !Unrestricted(Split(text, ',')[0], spec);
  }

  lemma StarField(star: string, spec: FieldSpec, values: set<int>, restricted: bool)
    requires star == "*" && spec.min <= spec.max && Means(star, spec, values, restricted)
    ensures (forall v :: v in values <==> spec.min <= v <= spec.max) && !restricted
  {
    SplitOff(star, ',', []);
    var p := Part(spec.min, spec.max, 1, true);
    PartExactly(star, spec, p);
    assert AllUnrestricted(Split(star, ','), spec);
    forall v
      ensures v in values <==> spec.min <= v <= spec.max
    {
      if Named([star], spec, v) {
        PartRange(p, v);
      }
      if spec.min <= v <= spec.max {
        WildcardIsFull([star], spec, v);
      }
    }
  }

  /** What the five fields compile to. */
  lemma WeeklyCompiled(fields: seq<string>, minute: nat, hour: nat, weekday: nat, s: Schedule)
    requires minute <= 59 && hour <= 23 && weekday <= 6
    requires |fields| == 5 && fields[0] == Digits(minute) && fields[1] == Digits(hour) && fields[4] == Digits(weekday)
    requires fields[2] == "*" && fields[3] == "*" && Compiled(fields, s)
    ensures s.minute == {minute} && s.hour == {hour} && s.dayOfWeek == {weekday} && !s.domRestricted && s.dowRestricted
    ensures forall v :: v in s.month <==> 1 <= v <= 12
    ensures forall v :: v in s.dayOfMonth <==> 1 <= v <= 31
  {
    var r0 :| Means(fields[0], FIELD_SPECS[0], s.minute, r0);
    SingleField(minute, FIELD_SPECS[0], s.minute, r0);
    var r1 :| Means(fields[1], FIELD_SPECS[1], s.hour, r1);
    SingleField(hour, FIELD_SPECS[1], s.hour, r1);
    StarField(fields[2], FIELD_SPECS[2], s.dayOfMonth, s.domRestricted);
    var r3 :| Means(fields[3], FIELD_SPECS[3], s.month, r3);
    StarField(fields[3], FIELD_SPECS[3], s.month, r3);
    SingleField(weekday, FIELD_SPECS[4], s.dayOfWeek, s.dowRestricted);
  }

  lemma WeeklyMatches(minute: nat, hour: nat, weekday: nat, s: Schedule, t: int)
    requires weekday <= 6
    requires s.minute == {minute} && s.hour == {hour} && s.dayOfWeek == {weekday} && !s.domRestricted && s.dowRestricted
    requires forall v :: v in s.month <==> 1 <= v <= 12
    requires forall v :: v in s.dayOfMonth <==> 1 <= v <= 31
    ensures Matches(s, t) <==>
              MinuteOf(t) == minute && HourOf(t) == hour && (DayOf(t) - DayNumber(KnownDay(weekday))) % 7 == 0
  {
    WeekdayByDistance(DayOf(t), weekday);
  }

  /** Minute, hour and weekday given, the two other fields starred: one fire a week, at that time of that weekday. */
  lemma WeeklyText(fields: seq<string>, minute: nat, hour: nat, weekday: nat, s: Schedule, t: int)
    requires minute <= 59 && hour <= 23 && weekday <= 6
    requires |fields| == 5 && fields[0] == Digits(minute) && fields[1] == Digits(hour) && fields[4] == Digits(weekday)
    requires fields[2] == "*" && fields[3] == "*" && Compiled(fields, s)
    ensures Matches(s, t) <==>
              MinuteOf(t) == minute && HourOf(t) == hour && (DayOf(t) - DayNumber(KnownDay(weekday))) % 7 == 0
  {
    WeeklyCompiled(fields, minute, hour, weekday, s);
    WeeklyMatches(minute, hour, weekday, s, t);
  }
}
