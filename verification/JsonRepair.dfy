/**
 * Repair of truncated JSON text: a string- and escape-aware bracket scan (strings as in section 7 of
 * RFC 8259, structural characters as in section 2), then closing whatever was left open.
 */
module JsonRepair {
  import opened Options
  import opened Text

  /** Unmatched openers, whether the scan is inside a string, and whether the next character is escaped. */
  datatype Scan = Scan(stack: string, inString: bool, escaped: bool)

  const START := Scan("", false, false)

  function Top(stack: string): Option<char> {
    if stack == [] then None else Some(stack[|stack| - 1])
  }

  /** One character of the scan; None is a closer that does not match the innermost opener. */
  function Advance(s: Scan, ch: char): Option<Scan> {
    if s.inString then
      if s.escaped then Some(s.(escaped := false))
      else if ch == '\\' then Some(s.(escaped := true))
      else if ch == '"' then Some(s.(inString := false))
      else Some(s)
    else if ch == '"' then Some(s.(inString := true))
    else if ch == '{' || ch == '[' then Some(s.(stack := s.stack + [ch]))
    else if ch == '}' then
      if Top(s.stack) == Some('{') then Some(s.(stack := s.stack[..|s.stack| - 1])) else None
    else if ch == ']' then
      if Top(s.stack) == Some('[') then Some(s.(stack := s.stack[..|s.stack| - 1])) else None
    else Some(s)
  }

  function ScanFrom(s: Scan, text: string): Option<Scan>
    decreases text
  {
    if text == [] then Some(s)
    else
      var next := Advance(s, text[0]);
      if next.None? then None else ScanFrom(next.value, text[1..])
  }

  /** Nothing is left open. */
  predicate Balanced(text: string) {
    ScanFrom(START, text) == Some(START)
  }

  predicate StartsBracketed(text: string) {
    text != [] && text[0] in {'{', '['}
  }

  /** What the repair accepts: a bracketed text without a mismatched closer that leaves something open. */
  predicate Repairable(text: string) {
    && StartsBracketed(text)
    && ScanFrom(START, text).Some?
    && (ScanFrom(START, text).value.stack != [] || ScanFrom(START, text).value.inString)
  }

  predicate IsJsonSpace(c: char) {
    c in {' ', '\t', '\n', '\r'}
  }

  function TrimRightJson(s: string): (r: string)
    ensures r <= s && forall i :: |r| <= i < |s| ==> IsJsonSpace(s[i])
    ensures r != [] ==> !IsJsonSpace(r[|r| - 1])
  {
    if s != [] && IsJsonSpace(s[|s| - 1]) then TrimRightJson(s[..|s| - 1]) else s
  }

  function Closer(opener: char): char {
    if opener == '{' then '}' else ']'
  }

  /** The closers of a stack, innermost first. */
  function Closers(stack: string): string {
    if stack == [] then "" else [Closer(stack[|stack| - 1])] + Closers(stack[..|stack| - 1])
  }

  /** `kept` is `text` without trailing JSON white space and at most one comma. */
  ghost predicate CutOutside(kept: string, text: string) {
    && kept <= text
    && (forall i :: |kept| <= i < |text| ==> IsJsonSpace(text[i]) || text[i] == ',')
    && (forall i, j :: |kept| <= i < j < |text| ==> text[i] != ',' || text[j] != ',')
  }

  /** `kept` is `text` without at most one dangling backslash. */
  ghost predicate CutInside(kept: string, text: string) {
    kept == text || (|text| > 0 && text[|text| - 1] == '\\' && kept == text[..|text| - 1])
  }

  ghost predicate Trimmings(kept: string, text: string) {
    CutOutside(kept, text) || CutInside(kept, text)
  }

  predicate EndsWith(s: string, c: char) {
    s != [] && s[|s| - 1] == c
  }

  function WithoutComma(s: string): string {
    if EndsWith(s, ',') then s[..|s| - 1] else s
  }

  /** The prefix the repair keeps: without a dangling escape inside a string, otherwise without one trailing comma. */
  function Kept(text: string, scanned: Scan): string
    requires scanned.escaped ==> text != []
  {
    if scanned.inString then
      if scanned.escaped then text[..|text| - 1] else text
    else
      var once := WithoutComma(TrimRightJson(text));
      if EndsWith(TrimRightJson(once), ':') then TrimRightJson(once) else once
  }

  /** An open string gets its quote, a key without a value gets a null, anything else nothing. */
  function Added(scanned: Scan, kept: string): string {
    if scanned.inString then "\"" else if EndsWith(kept, ':') then "null" else ""
  }

  /** The repair: the kept prefix, its ending, and the missing closers. */
  function Repaired(text: string): string
    requires Repairable(text)
  {
    var scanned := ScanFrom(START, text).value;
    var kept := Kept(text, scanned);
    kept + Added(scanned, kept) + Closers(scanned.stack)
  }

  lemma {:induction false} ScanConcat(s: Scan, a: string, b: string)
    ensures ScanFrom(s, a + b) == if ScanFrom(s, a).None? then None else ScanFrom(ScanFrom(s, a).value, b)
    decreases |a|
  {
    if a == [] {
      assert a + b == b;
    } else {
      assert (a + b)[1..] == a[1..] + b;
      var next := Advance(s, a[0]);
      if next.Some? {
        ScanConcat(next.value, a[1..], b);
      }
    }
  }

  lemma ScanLast(s: Scan, text: string)
    requires text != []
    ensures var before := ScanFrom(s, text[..|text| - 1]);
            ScanFrom(s, text) == if before.None? then None else Advance(before.value, text[|text| - 1])
  {
    var k := |text| - 1;
    assert text == text[..k] + [text[k]];
    ScanConcat(s, text[..k], [text[k]]);
    assert [text[k]][1..] == [];
  }

  predicate Neutral(c: char) {
    c !in {'"', '\\', '{', '[', '}', ']'}
  }

  /** Outside strings neutral characters change nothing, so dropping them from the end keeps the scan. */
  lemma {:induction false} DropNeutral(text: string, k: nat)
    requires k <= |text| && forall i :: k <= i < |text| ==> Neutral(text[i])
    requires ScanFrom(START, text).Some? && !ScanFrom(START, text).value.inString
    ensures ScanFrom(START, text[..k]) == ScanFrom(START, text)
    decreases |text|
  {
    if k == |text| {
      assert text[..k] == text;
    } else {
      var n := |text| - 1;
      ScanLast(START, text);
      DropNeutral(text[..n], k);
      assert text[..n][..k] == text[..k];
    }
  }

  lemma {:induction false} AddNeutral(s: Scan, text: string)
    requires !s.inString && forall i :: 0 <= i < |text| ==> Neutral(text[i])
    ensures ScanFrom(s, text) == Some(s)
    decreases |text|
  {
    if text != [] {
      AddNeutral(s, text[1..]);
    }
  }

  ghost predicate OnlyOpeners(stack: string) {
    forall i :: 0 <= i < |stack| ==> stack[i] in {'{', '['}
  }

  lemma {:induction false} ScanStacksOpeners(s: Scan, text: string)
    requires OnlyOpeners(s.stack) && ScanFrom(s, text).Some?
    ensures OnlyOpeners(ScanFrom(s, text).value.stack)
    decreases |text|
  {
    if text != [] {
      ScanStacksOpeners(Advance(s, text[0]).value, text[1..]);
    }
  }

  /** The closers undo the stack. */
  lemma {:induction false} ClosersBalance(stack: string)
    requires OnlyOpeners(stack)
    ensures ScanFrom(Scan(stack, false, false), Closers(stack)) == Some(START)
    decreases |stack|
  {
    if stack != [] {
      var rest := stack[..|stack| - 1];
      ClosersBalance(rest);
      assert Closers(stack)[1..] == Closers(rest);
    }
  }

  lemma {:induction false} NotEscapedOutside(text: string)
    requires ScanFrom(START, text).Some?
    ensures ScanFrom(START, text).value.escaped ==> ScanFrom(START, text).value.inString
    decreases |text|
  {
    if text != [] {
      ScanLast(START, text);
      NotEscapedOutside(text[..|text| - 1]);
    }
  }

  /** The state inside a string just after a backslash. */
  lemma EscapedEndsInBackslash(text: string)
    requires ScanFrom(START, text).Some? && ScanFrom(START, text).value.escaped
    ensures text != [] && text[|text| - 1] == '\\'
    ensures ScanFrom(START, text[..|text| - 1]) == Some(ScanFrom(START, text).value.(escaped := false))
  {
    ScanLast(START, text);
    NotEscapedOutside(text[..|text| - 1]);
  }

  method ScanText(text: string) returns (result: Option<Scan>)
    ensures result == ScanFrom(START, text)
  {
    var stack, inString, escaped := "", false, false;
    for i := 0 to |text|
      invariant ScanFrom(START, text) == ScanFrom(Scan(stack, inString, escaped), text[i..])
    {
      var ch := text[i];
      assert text[i..][1..] == text[i + 1..];
      if inString {
        if escaped {
          escaped := false;
        } else if ch == '\\' {
          escaped := true;
        } else if ch == '"' {
          inString := false;
        }
        continue;
      }
      match ch {
        case '"' => inString := true;
        case '{' => stack := stack + [ch];
        case '[' => stack := stack + [ch];
        case '}' =>
          if |stack| == 0 || stack[|stack| - 1] != '{' {
            return None;
          }
          stack := stack[..|stack| - 1];
        case ']' =>
          if |stack| == 0 || stack[|stack| - 1] != '[' {
            return None;
          }
          stack := stack[..|stack| - 1];
        case _ =>
      }
    }
    return Some(Scan(stack, inString, escaped));
  }

  method RepairTruncated(text: string) returns (repaired: Option<string>)
    ensures repaired.Some? <==> Repairable(TrimSpace(text))
    ensures repaired.Some? ==> repaired.value == Repaired(TrimSpace(text))
    ensures repaired.Some? ==> Balanced(repaired.value) && !Repairable(TrimSpace(repaired.value))
  {
    var trimmed := TrimSpace(text);
    if |trimmed| == 0 || (trimmed[0] != '{' && trimmed[0] != '[') {
      return None;
    }
    var scanned := ScanText(trimmed);
    if scanned.None? || (scanned.value.stack == [] && !scanned.value.inString) {
      return None;
    }
    var kept, added := Ending(trimmed, scanned.value);
    RepairBalances(trimmed);
    var result := AppendClosers(kept + added, scanned.value.stack);
    return Some(result);
  }

  method AppendClosers(prefix: string, stack: string) returns (result: string)
    ensures result == prefix + Closers(stack)
  {
    result := prefix;
    var i := |stack|;
    assert stack[..i] == stack;
    while i > 0
      invariant 0 <= i <= |stack| && result + Closers(stack[..i]) == prefix + Closers(stack)
    {
      assert stack[..i][..i - 1] == stack[..i - 1];
      result := result + [Closer(stack[i - 1])];
      i := i - 1;
    }
  }

  /** The kept prefix and the ending put on it, before the closers. */
  method Ending(trimmed: string, scanned: Scan) returns (kept: string, added: string)
    requires StartsBracketed(trimmed) && ScanFrom(START, trimmed) == Some(scanned)
    ensures kept == Kept(trimmed, scanned) && added == Added(scanned, kept)
  {
    if scanned.inString {
      kept := trimmed;
      if scanned.escaped {
        kept := kept[..|kept| - 1];
      }
      return kept, "\"";
    }
    kept := TrimRightJson(trimmed);
    if EndsWith(kept, ',') {
      kept := kept[..|kept| - 1];
    }
    var bare := TrimRightJson(kept);
    if EndsWith(bare, ':') {
      return bare, "null";
    }
    return kept, "";
  }

  /** The kept prefix leaves open what the whole text leaves open, and ends outside an escape. */
  lemma KeptScans(text: string)
    requires ScanFrom(START, text).Some?
    ensures var s := ScanFrom(START, text).value;
            Trimmings(Kept(text, s), text) && ScanFrom(START, Kept(text, s)) == Some(Scan(s.stack, s.inString, false))
  {
    var s := ScanFrom(START, text).value;
    NotEscapedOutside(text);
    if s.escaped {
      EscapedEndsInBackslash(text);
    } else if !s.inString {
      CutShape(text);
      CutKeepsScan(text, Kept(text, s));
    }
  }

  lemma CutShape(text: string)
    ensures var once := WithoutComma(TrimRightJson(text)); CutOutside(once, text) && CutOutside(TrimRightJson(once), text)
  {
    var trimmed := TrimRightJson(text);
    var once := WithoutComma(trimmed);
    var bare := TrimRightJson(once);
    assert forall i :: 0 <= i < |trimmed| ==> trimmed[i] == text[i];
    assert forall i :: 0 <= i < |once| ==> once[i] == text[i];
    assert forall i :: |once| <= i < |text| && text[i] == ',' ==> i == |once|;
    assert forall i :: |bare| <= i < |text| && text[i] == ',' ==> i == |once|;
  }

  /** Cutting white space, a comma and more white space outside a string keeps the scan. */
  lemma CutKeepsScan(trimmed: string, kept: string)
    requires ScanFrom(START, trimmed).Some? && !ScanFrom(START, trimmed).value.inString
    requires CutOutside(kept, trimmed)
    ensures ScanFrom(START, kept) == ScanFrom(START, trimmed)
  {
    DropNeutral(trimmed, |kept|);
    assert trimmed[..|kept|] == kept;
  }

  lemma EndingCloses(scanned: Scan, kept: string)
    requires ScanFrom(START, kept) == Some(Scan(scanned.stack, scanned.inString, false))
    ensures ScanFrom(START, kept + Added(scanned, kept)) == Some(Scan(scanned.stack, false, false))
  {
    var added := Added(scanned, kept);
    ScanConcat(START, kept, added);
    if scanned.inString {
      assert added[1..] == "";
    } else {
      AddNeutral(Scan(scanned.stack, false, false), added);
    }
  }

  lemma KeptKeepsStart(text: string, kept: string)
    requires StartsBracketed(text) && Trimmings(kept, text)
    ensures kept != [] && kept[0] == text[0]
  {
  }

  /** The repair leaves nothing open, so a second repair refuses it. */
  lemma RepairBalances(text: string)
    requires Repairable(text)
    ensures Balanced(Repaired(text)) && TrimSpace(Repaired(text)) == Repaired(text) && !Repairable(Repaired(text))
  {
    var s := ScanFrom(START, text).value;
    var kept := Kept(text, s);
    KeptScans(text);
    EndingCloses(s, kept);
    ScanStacksOpeners(START, text);
    ClosersBalance(s.stack);
    ScanConcat(START, kept + Added(s, kept), Closers(s.stack));
    KeptKeepsStart(text, kept);
    ClosersEnd(s.stack);
    TrimmedIsFixed(Repaired(text));
  }

  lemma ClosersEnd(stack: string)
    ensures |Closers(stack)| == |stack|
    ensures stack != [] ==> Closers(stack)[|Closers(stack)| - 1] in {'}', ']'}
  {
  }

  // ----- what happens to a key without a value

  /** Outside strings, the text ends in a colon once white space and one comma are gone. */
  predicate DanglingKey(text: string)
    requires ScanFrom(START, text).Some?
  {
    !ScanFrom(START, text).value.inString && EndsWith(TrimRightJson(WithoutComma(TrimRightJson(text))), ':')
  }

  /** The repair is a prefix of the text followed by closing characters only. */
  ghost predicate OnlyCloses(text: string, repaired: string)
    requires ScanFrom(START, text).Some?
  {
    exists prefix, quote :: prefix <= text && quote in {"", "\""}
                            && repaired == prefix + quote + Closers(ScanFrom(START, text).value.stack)
  }

  /** A repair only cuts and closes, except exactly for a dangling key, which it completes with a null. */
  lemma OnlyClosesExactly(text: string)
    requires Repairable(text)
    ensures OnlyCloses(text, Repaired(text)) <==> !DanglingKey(text)
  {
    var s := ScanFrom(START, text).value;
    var kept := Kept(text, s);
    KeptScans(text);
    if DanglingKey(text) {
      forall prefix, quote | prefix <= text && quote in {"", "\""} && Repaired(text) == prefix + quote + Closers(s.stack)
        ensures false
      {
        SameEnd(kept + "null", prefix + quote, Closers(s.stack));
        NullNotInText(text, kept, prefix, quote);
      }
    } else {
      assert kept <= text;
      assert Repaired(text) == kept + Added(s, kept) + Closers(s.stack);
    }
  }

  lemma SameEnd(a: string, b: string, end: string)
    requires a + end == b + end
    ensures a == b
  {
    assert a == (a + end)[..|a|] && b == (b + end)[..|b|];
  }

  lemma NullNotInText(text: string, kept: string, prefix: string, quote: string)
    requires CutOutside(kept, text) && prefix <= text && quote in {"", "\""}
    ensures kept + "null" != prefix + quote
  {
    assert (kept + "null")[|kept|] == 'n' && (kept + "null")[|kept| + 3] == 'l';
    assert quote == "\"" ==> (prefix + quote)[|prefix|] == '"';
    assert |kept| < |prefix| ==> prefix[|kept|] == text[|kept|];
  }

  /** The shortest example. */
  lemma DanglingKeyGetsNull()
    ensures Repairable("{\"a\":") && DanglingKey("{\"a\":") && Repaired("{\"a\":") == "{\"a\":null}"
  {
    var text := "{\"a\":";
    var inKey := Scan("{", true, false);
    assert text[1..] == "\"a\":" && text[1..][1..] == "a\":" && text[1..][1..][1..] == "\":";
    assert ScanFrom(Scan("{", false, false), ":") == Some(Scan("{", false, false));
    assert ScanFrom(inKey, "\":") == ScanFrom(Scan("{", false, false), ":");
    assert ScanFrom(inKey, "a\":") == ScanFrom(inKey, "\":");
    assert ScanFrom(Scan("{", false, false), "\"a\":") == ScanFrom(inKey, "a\":");
    assert "" + ['{'] == "{" && Advance(START, '{') == Some(Scan("{", false, false));
    assert ScanFrom(START, text) == Some(Scan("{", false, false));
    assert TrimRightJson(text) == text;
    assert Closers("{") == "}";
  }
}
