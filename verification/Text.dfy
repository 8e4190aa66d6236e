/** Trimming, splitting and decimal digits as the runtime's text helpers see them. */
module Text {
  predicate IsSpace(c: char) {
    || '\t' <= c <= '\r' || c == ' ' || c == '\U{85}' || c == '\U{A0}'
    || c == '\U{1680}' || '\U{2000}' <= c <= '\U{200A}' || c == '\U{2028}' || c == '\U{2029}'
    || c == '\U{202F}' || c == '\U{205F}' || c == '\U{3000}'
  }

  function TrimLeft(s: string): (r: string)
    ensures |r| <= |s|
    ensures r != [] ==> !IsSpace(r[0])
  {
    if s != [] && IsSpace(s[0]) then TrimLeft(s[1..]) else s
  }

  function TrimRight(s: string): (r: string)
    ensures r <= s
    ensures r != [] ==> !IsSpace(r[|r| - 1])
  {
    if s != [] && IsSpace(s[|s| - 1]) then TrimRight(s[..|s| - 1]) else s
  }

  function TrimSpace(s: string): (r: string)
    ensures r != [] ==> !IsSpace(r[0]) && !IsSpace(r[|r| - 1])
  {
    TrimRight(TrimLeft(s))
  }

  /** Text that begins and ends with a visible character is left alone. */
  lemma TrimmedIsFixed(s: string)
    requires s != [] ==> !IsSpace(s[0]) && !IsSpace(s[|s| - 1])
    ensures TrimSpace(s) == s
  {
  }

  predicate Blank(s: string) {
    forall c :: c in s ==> IsSpace(c)
  }

  lemma {:induction false} TrimLeftDrops(a: string, s: string)
    requires Blank(a) && (s != [] ==> !IsSpace(s[0]))
    ensures TrimLeft(a + s) == s
    decreases |a|
  {
    if a == [] {
      assert a + s == s;
    } else {
      TrimLeftDrops(a[1..], s);
      assert (a + s)[1..] == a[1..] + s;
    }
  }

  lemma {:induction false} TrimRightDrops(s: string, b: string)
    requires Blank(b) && (s != [] ==> !IsSpace(s[|s| - 1]))
    ensures TrimRight(s + b) == s
    decreases |b|
  {
    if b == [] {
      assert s + b == s;
    } else {
      TrimRightDrops(s, b[..|b| - 1]);
      assert (s + b)[..|s + b| - 1] == s + b[..|b| - 1];
    }
  }

  /** Trimming drops the blanks around a text that begins and ends visibly. */
  lemma TrimSpaceDrops(a: string, s: string, b: string)
    requires Blank(a) && Blank(b) && (s != [] ==> !IsSpace(s[0]) && !IsSpace(s[|s| - 1]))
    ensures TrimSpace(a + s + b) == s
  {
    if s == [] {
      assert a + s + b == (a + b) + [];
      TrimLeftDrops(a + b, []);
    } else {
      assert a + s + b == a + (s + b);
      TrimLeftDrops(a, s + b);
      TrimRightDrops(s, b);
    }
  }

  lemma {:induction false} TrimSpaceEmpties(s: string)
    ensures TrimSpace(s) == "" <==> Blank(s)
  {
    if Blank(s) {
      assert s + [] + [] == s;
      TrimSpaceDrops(s, [], []);
    } else {
      FirstVisible(s);
    }
  }

  lemma {:induction false} FirstVisible(s: string)
    requires !Blank(s)
    ensures TrimSpace(s) != ""
  {
    if IsSpace(s[0]) {
      assert forall c :: c in s ==> c == s[0] || c in s[1..];
      FirstVisible(s[1..]);
    } else {
      TrimRightKeepsFirst(s);
    }
  }

  lemma {:induction false} TrimRightKeepsFirst(s: string)
    requires s != [] && !IsSpace(s[0])
    ensures TrimRight(s) != []
  {
    if IsSpace(s[|s| - 1]) {
      TrimRightKeepsFirst(s[..|s| - 1]);
    }
  }

  /** Splits at every occurrence of `sep`; there is always at least one part. */
  function Split(s: string, sep: char): (parts: seq<string>)
    ensures |parts| > 0
  {
    if s == [] then [[]]
    else
      var rest := Split(s[1..], sep);
      if s[0] == sep then [[]] + rest else [[s[0]] + rest[0]] + rest[1..]
  }

  /** The part before the first `sep`. */
  function Before(s: string, sep: char): string {
    if s == [] || s[0] == sep then [] else [s[0]] + Before(s[1..], sep)
  }

  /** What follows the first `sep`, if there is one. */
  function After(s: string, sep: char): string {
    if s == [] then [] else if s[0] == sep then s[1..] else After(s[1..], sep)
  }

  function TakeWord(s: string): (w: string)
    ensures |w| <= |s|
    ensures s != [] && !IsSpace(s[0]) ==> |w| > 0
  {
    if s == [] || IsSpace(s[0]) then [] else [s[0]] + TakeWord(s[1..])
  }

  /** The maximal runs of visible characters. */
  function Fields(s: string): seq<string>
    decreases |s|
  {
    var t := TrimLeft(s);
    if t == [] then [] else [TakeWord(t)] + Fields(t[|TakeWord(t)|..])
  }

  predicate IsDigit(c: char) { '0' <= c <= '9' }

  function DigitValue(c: char): (d: int)
    requires IsDigit(c)
    ensures 0 <= d <= 9
  {
    c as int - '0' as int
  }

  predicate AllDigits(s: string) {
    forall i :: 0 <= i < |s| ==> IsDigit(s[i])
  }

  function Decimal(s: string): (n: nat)
    requires AllDigits(s)
  {
    if s == [] then 0 else 10 * Decimal(s[..|s| - 1]) + DigitValue(s[|s| - 1])
  }

  function Digit(n: int): (c: char)
    requires 0 <= n <= 9
    ensures IsDigit(c) && DigitValue(c) == n
  {
    '0' + n as char
  }

  function Digits(n: nat): (s: string)
    ensures |s| > 0 && AllDigits(s)
    ensures n >= 10 ==> |s| > 1
    ensures n >= 100 ==> |s| > 2
    ensures n >= 1000 ==> |s| > 3
    ensures n >= 10_000 ==> |s| > 4
  {
    if n < 10 then [Digit(n)] else Digits(n / 10) + [Digit(n % 10)]
  }

  lemma {:induction false} DecimalOfDigits(n: nat)
    ensures Decimal(Digits(n)) == n
  {
    if n < 10 {
      assert [Digit(n)][..0] == [];
    } else {
      DecimalOfDigits(n / 10);
      assert Digits(n)[..|Digits(n)| - 1] == Digits(n / 10);
    }
  }

  // ----- what cutting and splitting mean

  lemma {:induction false} CutJoins(s: string, sep: char)
    requires sep in s
    ensures s == Before(s, sep) + [sep] + After(s, sep) && sep !in Before(s, sep)
  {
    if s[0] == sep {
      assert s == [sep] + s[1..];
    } else {
      CutJoins(s[1..], sep);
      assert s == [s[0]] + s[1..];
    }
  }

  lemma {:induction false} CutOf(a: string, sep: char, b: string)
    requires sep !in a
    ensures Before(a + [sep] + b, sep) == a && After(a + [sep] + b, sep) == b
  {
    if a != [] {
      CutOf(a[1..], sep, b);
      assert (a + [sep] + b)[1..] == a[1..] + [sep] + b;
    }
  }

  /** Splitting goes part by part. */
  lemma {:induction false} SplitOff(a: string, sep: char, b: string)
    requires sep !in a
    ensures Split(a + [sep] + b, sep) == [a] + Split(b, sep) && Split(a, sep) == [a]
  {
    if a == [] {
      assert (a + [sep] + b)[1..] == b;
    } else {
      SplitOff(a[1..], sep, b);
      assert (a + [sep] + b)[1..] == a[1..] + [sep] + b;
      assert a == [a[0]] + a[1..];
    }
  }

  predicate Visible(w: string) {
    w != [] && forall c :: c in w ==> !IsSpace(c)
  }

  lemma {:induction false} WordThen(w: string, rest: string)
    requires (forall c :: c in w ==> !IsSpace(c)) && (rest != [] ==> IsSpace(rest[0]))
    ensures TakeWord(w + rest) == w
  {
    if w == [] {
      assert w + rest == rest;
    } else {
      WordThen(w[1..], rest);
      assert (w + rest)[1..] == w[1..] + rest;
    }
  }

  /** Fields are the visible words between blanks. */
  lemma FieldsOff(a: string, w: string, rest: string)
    requires Blank(a) && Visible(w) && (rest != [] ==> IsSpace(rest[0]))
    ensures Fields(a + w + rest) == [w] + Fields(rest)
  {
    TrimLeftDrops(a, w + rest);
    assert a + w + rest == a + (w + rest);
    WordThen(w, rest);
    assert (w + rest)[|w|..] == rest;
  }
}
