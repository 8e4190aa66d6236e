/** When a repaired text is valid JSON (RFC 8259): a recogniser for the grammar, and where a text may be cut. */
module JsonValidity {
  import opened Options
  import opened JsonRepair
  import opened Text

  datatype Escape = Plain | Escaped | Hex(left: nat)

  datatype Part = Minus | Zero | Whole | Point | Fraction | Exponent | Sign | Power

  /** What the grammar allows next. `first` marks the position right after an opening bracket. */
  datatype Mode =
    | ValueDue(first: bool)
    | KeyDue(first: bool)
    | ColonDue
    | Done
    | InText(key: bool, escape: Escape)
    | InNumber(part: Part)
    | InWord(rest: string)

  datatype Machine = Machine(mode: Mode, stack: string)

  const BEGIN := Machine(ValueDue(false), "")

  predicate IsHex(c: char) {
    '0' <= c <= '9' || 'a' <= c <= 'f' || 'A' <= c <= 'F'
  }

  predicate Complete(p: Part) {
    p in {Zero, Whole, Fraction, Power}
  }

  function NextPart(p: Part, c: char): Option<Part> {
    match p
    case Minus => if c == '0' then Some(Zero) else if IsDigit(c) then Some(Whole) else None
    case Zero => if c == '.' then Some(Point) else if c in {'e', 'E'} then Some(Exponent) else None
    case Whole =>
      if IsDigit(c) then Some(Whole) else if c == '.' then Some(Point) else if c in {'e', 'E'} then Some(Exponent) else None
    case Point => if IsDigit(c) then Some(Fraction) else None
    case Fraction => if IsDigit(c) then Some(Fraction) else if c in {'e', 'E'} then Some(Exponent) else None
    case Exponent => if c in {'+', '-'} then Some(Sign) else if IsDigit(c) then Some(Power) else None
    case Sign => if IsDigit(c) then Some(Power) else None
    case Power => if IsDigit(c) then Some(Power) else None
  }

  function InsideText(key: bool, e: Escape, c: char): Option<Mode> {
    match e
    case Plain =>
      if c == '"' then Some(if key then ColonDue else Done)
      else if c == '\\' then Some(InText(key, Escaped))
      else if c < ' ' then None else Some(InText(key, Plain))
    case Escaped =>
      if c in {'"', '\\', '/', 'b', 'f', 'n', 'r', 't'} then Some(InText(key, Plain))
      else if c == 'u' then Some(InText(key, Hex(4))) else None
    case Hex(left) =>
      if IsHex(c) then Some(InText(key, if left <= 1 then Plain else Hex(left - 1))) else None
  }

  /** A closing bracket for the innermost opener. */
  function Close(stack: string, c: char): Option<Machine> {
    if stack != [] && c == Closer(stack[|stack| - 1]) then Some(Machine(Done, stack[..|stack| - 1])) else None
  }

  function AfterValue(stack: string, c: char): Option<Machine> {
    if IsJsonSpace(c) then Some(Machine(Done, stack))
    else if c == ',' && stack != [] then
      Some(Machine(if stack[|stack| - 1] == '{' then KeyDue(false) else ValueDue(false), stack))
    else if c in {'}', ']'} then Close(stack, c)
    else None
  }

  function BeginValue(first: bool, stack: string, c: char): Option<Machine> {
    if IsJsonSpace(c) then Some(Machine(ValueDue(first), stack))
    else if c == '"' then Some(Machine(InText(false, Plain), stack))
    else if c == '{' then Some(Machine(KeyDue(true), stack + [c]))
    else if c == '[' then Some(Machine(ValueDue(true), stack + [c]))
    else if c == '-' then Some(Machine(InNumber(Minus), stack))
    else if c == '0' then Some(Machine(InNumber(Zero), stack))
    else if IsDigit(c) then Some(Machine(InNumber(Whole), stack))
    else if c == 't' then Some(Machine(InWord("rue"), stack))
    else if c == 'f' then Some(Machine(InWord("alse"), stack))
    else if c == 'n' then Some(Machine(InWord("ull"), stack))
    else if c == ']' && first then Close(stack, c)
    else None
  }

  function Step(m: Machine, c: char): Option<Machine> {
    match m.mode
    case ValueDue(first) => BeginValue(first, m.stack, c)
    case KeyDue(first) =>
      if IsJsonSpace(c) then Some(m)
      else if c == '"' then Some(m.(mode := InText(true, Plain)))
      else if c == '}' && first then Close(m.stack, c) else None
    case ColonDue => if IsJsonSpace(c) then Some(m) else if c == ':' then Some(m.(mode := ValueDue(false))) else None
    case Done => AfterValue(m.stack, c)
    case InText(key, escape) =>
      var mode := InsideText(key, escape, c);
      if mode.Some? then Some(m.(mode := mode.value)) else None
    case InNumber(part) =>
      var next := NextPart(part, c);
      if next.Some? then Some(m.(mode := InNumber(next.value)))
      else if Complete(part) then AfterValue(m.stack, c) else None
    case InWord(rest) =>
      if rest != [] && c == rest[0] then Some(m.(mode := if |rest| == 1 then Done else InWord(rest[1..]))) else None
  }

  function Run(m: Machine, text: string): Option<Machine>
    decreases text
  {
    if text == [] then Some(m)
    else
      var next := Step(m, text[0]);
      if next.None? then None else Run(next.value, text[1..])
  }

  predicate Finished(m: Machine) {
    m.stack == [] && (m.mode.Done? || (m.mode.InNumber? && Complete(m.mode.part)))
  }

  /** A JSON text: one value, with white space around its tokens. */
  predicate IsJson(text: string) {
    var m := Run(BEGIN, text);
    m.Some? && Finished(m.value)
  }

  lemma {:induction false} RunConcat(m: Machine, a: string, b: string)
    ensures Run(m, a + b) == if Run(m, a).None? then None else Run(Run(m, a).value, b)
    decreases |a|
  {
    if a == [] {
      assert a + b == b;
    } else {
      assert (a + b)[1..] == a[1..] + b;
      var next := Step(m, a[0]);
      if next.Some? {
        RunConcat(next.value, a[1..], b);
      }
    }
  }

  /** The grammar's state agrees with the bracket scan. */
  ghost predicate Agrees(m: Machine, s: Scan) {
    m.stack == s.stack && (m.mode.InText? <==> s.inString) && (s.escaped <==> m.mode.InText? && m.mode.escape == Escaped)
  }

  predicate Letters(text: string) {
    forall i :: 0 <= i < |text| ==> 'a' <= text[i] <= 'z'
  }

  /** What every reachable state satisfies. */
  ghost predicate Sound(m: Machine) {
    && (m.mode == ValueDue(true) ==> Top(m.stack) == Some('['))
    && (m.mode == KeyDue(true) ==> Top(m.stack) == Some('{'))
    && (m.mode.InWord? ==> m.mode.rest != [] && Letters(m.mode.rest))
    && OnlyOpeners(m.stack)
  }

  lemma CloseAgrees(stack: string, c: char)
    requires OnlyOpeners(stack) && c in {'}', ']'} && Close(stack, c).Some?
    ensures Sound(Close(stack, c).value)
    ensures Advance(Scan(stack, false, false), c) == Some(Scan(Close(stack, c).value.stack, false, false))
  {
  }

  lemma AfterValueAgrees(stack: string, c: char)
    requires OnlyOpeners(stack) && AfterValue(stack, c).Some?
    ensures var next := AfterValue(stack, c).value;
            Sound(next) && !next.mode.InText? && Advance(Scan(stack, false, false), c) == Some(Scan(next.stack, false, false))
  {
    if c in {'}', ']'} {
      CloseAgrees(stack, c);
    }
  }

  lemma BeginValueAgrees(first: bool, stack: string, c: char)
    requires OnlyOpeners(stack) && (first ==> Top(stack) == Some('[')) && BeginValue(first, stack, c).Some?
    ensures var next := BeginValue(first, stack, c).value;
            && Sound(next) && Advance(Scan(stack, false, false), c) == Some(Scan(next.stack, next.mode.InText?, false))
            && (next.mode.InText? ==> next.mode.escape == Plain)
  {
    if c == ']' {
      CloseAgrees(stack, c);
    } else if c in {'{', '['} {
      assert OnlyOpeners(stack + [c]) && Top(stack + [c]) == Some(c);
    }
  }

  lemma InsideTextAgrees(key: bool, e: Escape, stack: string, c: char)
    requires InsideText(key, e, c).Some?
    ensures var next := InsideText(key, e, c).value;
            && (next.InText? || next == ColonDue || next == Done)
            && Advance(Scan(stack, true, e == Escaped), c)
               == Some(Scan(stack, next.InText?, next.InText? && next.escape == Escaped))
  {
  }

  lemma StepAgrees(m: Machine, s: Scan, c: char)
    requires Sound(m) && Agrees(m, s) && Step(m, c).Some?
    ensures Sound(Step(m, c).value) && Advance(s, c).Some? && Agrees(Step(m, c).value, Advance(s, c).value)
  {
    match m.mode
    case ValueDue(first) => BeginValueAgrees(first, m.stack, c);
    case KeyDue(first) =>
      if c == '}' {
        CloseAgrees(m.stack, c);
      }
    case ColonDue =>
    case Done => AfterValueAgrees(m.stack, c);
    case InText(key, escape) => InsideTextAgrees(key, escape, m.stack, c);
    case InNumber(part) =>
      if NextPart(part, c).None? {
        AfterValueAgrees(m.stack, c);
      }
    case InWord(rest) =>
      assert 'a' <= rest[0] <= 'z';
  }

  lemma {:induction false} RunAgrees(m: Machine, s: Scan, text: string)
    requires Sound(m) && Agrees(m, s) && Run(m, text).Some?
    ensures Sound(Run(m, text).value) && ScanFrom(s, text).Some? && Agrees(Run(m, text).value, ScanFrom(s, text).value)
    decreases |text|
  {
    if text != [] {
      StepAgrees(m, s, text[0]);
      RunAgrees(Step(m, text[0]).value, Advance(s, text[0]).value, text[1..]);
    }
  }

  // ----- closing brackets

  predicate CompleteNumber(m: Mode) {
    m.InNumber? && Complete(m.part)
  }

  /** A closing bracket may follow at once. */
  predicate Closable(m: Mode) {
    m == Done || CompleteNumber(m) || m == ValueDue(true) || m == KeyDue(true)
  }

  lemma {:induction false} ClosersUndo(stack: string)
    requires OnlyOpeners(stack)
    ensures Run(Machine(Done, stack), Closers(stack)) == Some(Machine(Done, ""))
    decreases |stack|
  {
    if stack != [] {
      var rest := stack[..|stack| - 1];
      ClosersUndo(rest);
      assert Closers(stack)[1..] == Closers(rest);
    }
  }

  lemma FirstCloser(m: Machine)
    requires Sound(m) && !m.mode.InText? && m.stack != []
    ensures Step(m, Closer(m.stack[|m.stack| - 1])) ==
            if Closable(m.mode) then Some(Machine(Done, m.stack[..|m.stack| - 1])) else None
  {
    var c := Closer(m.stack[|m.stack| - 1]);
    assert m.mode.InWord? ==> 'a' <= m.mode.rest[0] <= 'z';
  }

  /** The closers of what is open finish a text exactly where a closing bracket may follow. */
  lemma ClosersFinish(m: Machine)
    requires Sound(m) && !m.mode.InText? && m.stack != []
    ensures var end := Run(m, Closers(m.stack)); end.Some? && Finished(end.value) <==> Closable(m.mode)
  {
    var rest := m.stack[..|m.stack| - 1];
    FirstCloser(m);
    ClosersUndo(rest);
    assert Closers(m.stack)[1..] == Closers(rest);
  }

  // ----- the repaired text

  /** Where a kept prefix leaves off so that its ending and the closers make it valid. */
  ghost predicate GoodEnd(m: Mode, kept: string) {
    if m.InText? then !m.key && m.escape == Plain else EndsWith(kept, ':') || Closable(m)
  }

  lemma RunLast(text: string)
    requires text != []
    ensures var before := Run(BEGIN, text[..|text| - 1]);
            Run(BEGIN, text) == if before.None? then None else Step(before.value, text[|text| - 1])
  {
    var k := |text| - 1;
    assert text == text[..k] + [text[k]];
    RunConcat(BEGIN, text[..k], [text[k]]);
  }

  lemma RunSound(text: string)
    requires Run(BEGIN, text).Some?
    ensures Sound(Run(BEGIN, text).value)
    ensures ScanFrom(START, text).Some? && Agrees(Run(BEGIN, text).value, ScanFrom(START, text).value)
  {
    RunAgrees(BEGIN, START, text);
  }

  lemma StepSeparator(m: Machine, c: char)
    requires Sound(m) && c in {':', ','} && Step(m, c).Some? && !Step(m, c).value.mode.InText?
    ensures var next := Step(m, c).value;
            && next.stack == m.stack
            && (c == ':' ==> next.mode == ValueDue(false))
            && (c == ',' ==> next.mode in {KeyDue(false), ValueDue(false)} && (m.mode == Done || CompleteNumber(m.mode)))
  {
    match m.mode
    case InWord(rest) =>
    case _ =>
  }

  lemma StepToDue(m: Machine, c: char)
    requires Sound(m) && Step(m, c).Some? && !IsJsonSpace(c)
    ensures Step(m, c).value.mode == ValueDue(false) ==> c in {':', ','}
    ensures Step(m, c).value.mode == KeyDue(false) ==> c == ','
  {
    match m.mode
    case Done =>
    case InNumber(part) =>
    case InText(key, escape) => InsideTextAgrees(key, escape, m.stack, c);
    case _ =>
  }

  lemma StepSpace(m: Machine, c: char)
    requires Sound(m) && IsJsonSpace(c) && Step(m, c).Some? && !Step(m, c).value.mode.InText?
    ensures var next := Step(m, c).value;
            next.stack == m.stack && !m.mode.InText? && (next.mode == m.mode || (next.mode == Done && CompleteNumber(m.mode)))
  {
    match m.mode
    case InWord(rest) =>
    case _ =>
  }

  lemma StepToEscape(m: Machine, c: char)
    requires Step(m, c).Some? && Step(m, c).value.mode.InText? && Step(m, c).value.mode.escape == Escaped
    ensures m == Step(m, c).value.(mode := InText(Step(m, c).value.mode.key, Plain))
  {
    match m.mode
    case InText(key, escape) =>
    case ValueDue(first) =>
    case _ =>
  }

  /** Outside strings a colon, and a comma, leave the grammar in one place. */
  lemma LastCharacter(text: string)
    requires text != [] && Run(BEGIN, text).Some? && !Run(BEGIN, text).value.mode.InText?
    ensures var m, c := Run(BEGIN, text).value, text[|text| - 1];
            && (c == ':' ==> m.mode == ValueDue(false))
            && (c == ',' ==> m.mode in {KeyDue(false), ValueDue(false)})
            && (m.mode == ValueDue(false) && !IsJsonSpace(c) ==> c == ':' || c == ',')
            && (m.mode == KeyDue(false) && !IsJsonSpace(c) ==> c == ',')
  {
    var c := text[|text| - 1];
    RunLast(text);
    RunSound(text[..|text| - 1]);
    var before := Run(BEGIN, text[..|text| - 1]).value;
    if c in {':', ','} {
      StepSeparator(before, c);
    }
    if !IsJsonSpace(c) {
      StepToDue(before, c);
    }
  }

  lemma NullIsValue(stack: string)
    ensures Run(Machine(ValueDue(false), stack), "null") == Some(Machine(Done, stack))
  {
    var m := Machine(ValueDue(false), stack);
    assert "null"[1..] == "ull" && "ull"[1..] == "ll" && "ll"[1..] == "l" && "l"[1..] == "";
    assert Run(Machine(InWord("l"), stack), "l") == Some(Machine(Done, stack));
    assert Run(Machine(InWord("ll"), stack), "ll") == Run(Machine(InWord("l"), stack), "l");
    assert Run(Machine(InWord("ull"), stack), "ull") == Run(Machine(InWord("ll"), stack), "ll");
    assert Step(m, 'n') == Some(Machine(InWord("ull"), stack));
  }

  /** The ending closes a string, supplies a null, or adds nothing. */
  lemma EndingRuns(m: Machine, scanned: Scan, kept: string)
    requires Run(BEGIN, kept) == Some(m) && (m.mode.InText? <==> scanned.inString)
    requires m.mode.InText? ==> m.mode.escape != Escaped
    ensures var end := Run(m, Added(scanned, kept));
            if m.mode.InText? then
              end == if m.mode.escape == Plain then Some(m.(mode := if m.mode.key then ColonDue else Done)) else None
            else end == Some(if EndsWith(kept, ':') then m.(mode := Done) else m)
  {
    if m.mode.InText? {
      assert "\""[1..] == "";
    } else if EndsWith(kept, ':') {
      LastCharacter(kept);
      NullIsValue(m.stack);
    }
  }

  /** A repaired text is valid JSON exactly when its kept prefix follows the grammar to a good end. */
  lemma RepairIsJsonExactly(text: string)
    requires Repairable(text)
    ensures var kept := Kept(text, ScanFrom(START, text).value);
            IsJson(Repaired(text)) <==> Run(BEGIN, kept).Some? && GoodEnd(Run(BEGIN, kept).value.mode, kept)
  {
    var s := ScanFrom(START, text).value;
    var kept := Kept(text, s);
    var added := Added(s, kept);
    KeptScans(text);
    RunConcat(BEGIN, kept + added, Closers(s.stack));
    RunConcat(BEGIN, kept, added);
    if Run(BEGIN, kept).Some? {
      var m := Run(BEGIN, kept).value;
      RunSound(kept);
      EndingRuns(m, s, kept);
      EndingFinishes(m, s, kept);
    }
  }

  lemma EndingFinishes(m: Machine, s: Scan, kept: string)
    requires Sound(m) && m.stack == s.stack && (s.stack != [] || s.inString) && (m.mode.InText? <==> s.inString)
    requires m.mode.InText? ==> m.mode.escape != Escaped
    requires Run(BEGIN, kept) == Some(m)
    ensures var middle := Run(m, Added(s, kept));
            (middle.Some? && Run(middle.value, Closers(s.stack)).Some? && Finished(Run(middle.value, Closers(s.stack)).value))
            <==> GoodEnd(m.mode, kept)
  {
    EndingRuns(m, s, kept);
    var middle := Run(m, Added(s, kept));
    if middle.Some? {
      if s.stack == [] {
        assert Run(middle.value, Closers(s.stack)) == middle;
      } else {
        ClosersFinish(middle.value);
      }
    }
  }

  // ----- texts cut short

  /** Inside a token that only the missing characters could complete: a key, a number, a word, a hex escape. */
  predicate MidToken(m: Mode) {
    || m == ColonDue || (m.InText? && (m.key || m.escape.Hex?)) || (m.InNumber? && !Complete(m.part)) || m.InWord?
  }

  /** Trailing white space outside strings only ever completes a number. */
  lemma {:induction false} TrimRuns(text: string)
    requires Run(BEGIN, text).Some? && !Run(BEGIN, text).value.mode.InText?
    ensures var m, t := Run(BEGIN, text).value, Run(BEGIN, TrimRightJson(text));
            t.Some? && t.value.stack == m.stack && !t.value.mode.InText?
            && (t.value.mode == m.mode || (m.mode == Done && CompleteNumber(t.value.mode)))
    decreases |text|
  {
    if text != [] && IsJsonSpace(text[|text| - 1]) {
      RunLast(text);
      RunSound(text[..|text| - 1]);
      StepSpace(Run(BEGIN, text[..|text| - 1]).value, text[|text| - 1]);
      TrimRuns(text[..|text| - 1]);
    }
  }

  /** Before a comma there was a complete value. */
  lemma CommaRuns(text: string)
    requires EndsWith(text, ',') && Run(BEGIN, text).Some? && !Run(BEGIN, text).value.mode.InText?
    ensures var m, t := Run(BEGIN, text).value, Run(BEGIN, text[..|text| - 1]);
            t.Some? && t.value.stack == m.stack && (t.value.mode == Done || CompleteNumber(t.value.mode))
  {
    RunLast(text);
    RunSound(text[..|text| - 1]);
    StepSeparator(Run(BEGIN, text[..|text| - 1]).value, ',');
  }

  lemma KeptEndsWell(text: string)
    requires Repairable(text) && Run(BEGIN, text).Some?
    ensures var kept := Kept(text, ScanFrom(START, text).value);
            Run(BEGIN, kept).Some? && (GoodEnd(Run(BEGIN, kept).value.mode, kept) <==> !MidToken(Run(BEGIN, text).value.mode))
  {
    RunSound(text);
    var m := Run(BEGIN, text).value;
    if m.mode.InText? {
      if m.mode.escape == Escaped {
        EscapeRuns(text);
      }
    } else {
      KeptOutsideEndsWell(text);
    }
  }

  lemma EscapeRuns(text: string)
    requires Run(BEGIN, text).Some? && Run(BEGIN, text).value.mode.InText? && Run(BEGIN, text).value.mode.escape == Escaped
    ensures text != []
    ensures var m := Run(BEGIN, text).value;
            Run(BEGIN, text[..|text| - 1]) == Some(m.(mode := InText(m.mode.key, Plain)))
  {
    RunLast(text);
    StepToEscape(Run(BEGIN, text[..|text| - 1]).value, text[|text| - 1]);
  }

  lemma KeptOutsideEndsWell(text: string)
    requires Repairable(text) && Run(BEGIN, text).Some? && !Run(BEGIN, text).value.mode.InText?
    ensures var kept := Kept(text, ScanFrom(START, text).value);
            Run(BEGIN, kept).Some? && (GoodEnd(Run(BEGIN, kept).value.mode, kept) <==> !MidToken(Run(BEGIN, text).value.mode))
  {
    RunSound(text);
    var trimmed := TrimRightJson(text);
    TrimRuns(text);
    assert !IsJsonSpace(text[0]);
    assert trimmed != [];
    if EndsWith(trimmed, ',') {
      AfterComma(trimmed);
    } else {
      TrimTwice(text);
      WithoutSeparator(trimmed);
    }
  }

  /** A text cut at a comma keeps the complete value before it. */
  lemma AfterComma(trimmed: string)
    requires EndsWith(trimmed, ',') && Run(BEGIN, trimmed).Some? && !Run(BEGIN, trimmed).value.mode.InText?
    ensures var once, t := trimmed[..|trimmed| - 1], Run(BEGIN, trimmed[..|trimmed| - 1]);
            && t.Some? && (t.value.mode == Done || CompleteNumber(t.value.mode))
            && !EndsWith(once, ':') && !EndsWith(TrimRightJson(once), ':')
    ensures !MidToken(Run(BEGIN, trimmed).value.mode) && Run(BEGIN, trimmed).value.mode != Done
            && !CompleteNumber(Run(BEGIN, trimmed).value.mode)
  {
    var once := trimmed[..|trimmed| - 1];
    LastCharacter(trimmed);
    CommaRuns(trimmed);
    TrimRuns(once);
    if EndsWith(TrimRightJson(once), ':') {
      LastCharacter(TrimRightJson(once));
    }
    if EndsWith(once, ':') {
      LastCharacter(once);
    }
  }

  /** Elsewhere the cut is good at a colon and wherever no token is cut. */
  lemma WithoutSeparator(trimmed: string)
    requires trimmed != [] && !EndsWith(trimmed, ',') && !IsJsonSpace(trimmed[|trimmed| - 1])
    requires Run(BEGIN, trimmed).Some? && !Run(BEGIN, trimmed).value.mode.InText?
    ensures var m := Run(BEGIN, trimmed).value.mode; GoodEnd(m, trimmed) <==> !MidToken(m)
  {
    LastCharacter(trimmed);
  }

  lemma TrimTwice(text: string)
    ensures TrimRightJson(TrimRightJson(text)) == TrimRightJson(text)
  {
  }

  /**
   * A cut that leaves a valid beginning is repaired to valid JSON exactly when it does not fall inside a key, an
   * unfinished number, a word or a hexadecimal escape.
   */
  lemma TruncationIsJsonExactly(text: string)
    requires Repairable(text) && Run(BEGIN, text).Some?
    ensures IsJson(Repaired(text)) <==> !MidToken(Run(BEGIN, text).value.mode)
  {
    RepairIsJsonExactly(text);
    KeptEndsWell(text);
  }

  lemma BracketOpens(m: Machine, c: char)
    requires c == '[' && m.mode == ValueDue(false)
    ensures Step(m, c) == Some(Machine(ValueDue(true), m.stack + [c]))
  {
  }

  lemma WordBegins(m: Machine, c: char)
    requires c == 't' && m.mode == ValueDue(true)
    ensures Step(m, c) == Some(Machine(InWord("rue"), m.stack))
  {
  }

  /** A cut inside a word is closed to balanced brackets, and to no valid JSON. */
  lemma CutWordIsNotJson(text: string)
    requires text == ['[', 't']
    ensures Repairable(text) && Run(BEGIN, text).Some? && !IsJson(Repaired(text))
  {
    var open, inArray := Machine(ValueDue(true), BEGIN.stack + [text[0]]), Scan(START.stack + [text[0]], false, false);
    assert text[1..] == [text[1]] && text[1..][1..] == [];
    assert Advance(START, text[0]) == Some(inArray) && Advance(inArray, text[1]) == Some(inArray);
    assert ScanFrom(inArray, text[1..]) == Some(inArray);
    assert ScanFrom(START, text) == Some(inArray);
    BracketOpens(BEGIN, text[0]);
    WordBegins(open, text[1]);
    assert Run(open, text[1..]) == Some(open.(mode := InWord("rue")));
    assert Run(BEGIN, text) == Some(open.(mode := InWord("rue")));
    TruncationIsJsonExactly(text);
  }
}
