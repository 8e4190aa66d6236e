/** UTF-8 (section 3 of RFC 3629) and truncation that never splits a character. */
module Utf8 {
  newtype byte = x: int | 0 <= x < 256

  type Bytes = seq<byte>

  /** The encoding of one Unicode scalar value. */
  function EncodeChar(c: char): (b: Bytes)
    ensures 1 <= |b| <= 4 && !IsContinuation(b[0])
    ensures forall i :: 1 <= i < |b| ==> IsContinuation(b[i])
  {
    var n := c as int;
    if n < 0x80 then [n as byte]
    else if n < 0x800 then [(0xC0 + n / 0x40) as byte, Continuation(n)]
    else if n < 0x1_0000 then [(0xE0 + n / 0x1000) as byte, Continuation(n / 0x40), Continuation(n)]
    else [(0xF0 + n / 0x4_0000) as byte, Continuation(n / 0x1000), Continuation(n / 0x40), Continuation(n)]
  }

  function Continuation(n: int): (b: byte)
    ensures IsContinuation(b)
  {
    (0x80 + n % 0x40) as byte
  }

  predicate IsContinuation(b: byte) {
    0x80 <= b < 0xC0
  }

  /** Valid UTF-8 is exactly what this function produces. */
  function Encode(text: string): Bytes {
    if text == [] then [] else EncodeChar(text[0]) + Encode(text[1..])
  }

  function ByteLength(text: string): nat {
    |Encode(text)|
  }

  /** How many bytes a character takes, from its first. */
  function LengthFrom(first: byte): nat {
    if first < 0x80 then 1 else if first < 0xE0 then 2 else if first < 0xF0 then 3 else 4
  }

  /** The number spread over the bytes of one character. */
  function Payload(b: Bytes): int
    requires 1 <= |b| <= 4
  {
    match |b|
    case 1 => b[0] as int
    case 2 => (b[0] as int - 0xC0) * 64 + (b[1] as int - 0x80)
    case 3 => ((b[0] as int - 0xE0) * 64 + (b[1] as int - 0x80)) * 64 + (b[2] as int - 0x80)
    case _ => (((b[0] as int - 0xF0) * 64 + (b[1] as int - 0x80)) * 64 + (b[2] as int - 0x80)) * 64 + (b[3] as int - 0x80)
  }

  lemma SixBits(n: nat)
    ensures n == n / 64 * 64 + n % 64 && n / 64 / 64 == n / 4096
  {
  }

  lemma SixBitGroups(n: nat)
    ensures n == n / 64 * 64 + n % 64
    ensures n == (n / 4096 * 64 + n / 64 % 64) * 64 + n % 64
    ensures n == ((n / 262_144 * 64 + n / 4096 % 64) * 64 + n / 64 % 64) * 64 + n % 64
  {
    SixBits(n);
    SixBits(n / 64);
    SixBits(n / 4096);
  }

  /** A character can be read back from its bytes, which are as few as can hold it. */
  lemma CharReadsBack(c: char)
    ensures Payload(EncodeChar(c)) == c as int && |EncodeChar(c)| == LengthFrom(EncodeChar(c)[0])
    ensures |EncodeChar(c)| == if c as int < 128 then 1 else if c as int < 2048 then 2 else if c as int < 65_536 then 3 else 4
  {
    SixBitGroups(c as int);
  }

  /** Different texts have different encodings. */
  lemma {:induction false} EncodeInjective(a: string, b: string)
    requires Encode(a) == Encode(b)
    ensures a == b
  {
    if a != [] && b != [] {
      var x, y := EncodeChar(a[0]), EncodeChar(b[0]);
      CharReadsBack(a[0]);
      CharReadsBack(b[0]);
      assert x[0] == Encode(a)[0] == y[0];
      assert x == Encode(a)[..|x|] && y == Encode(b)[..|x|];
      assert a[0] as int == b[0] as int;
      assert Encode(a[1..]) == Encode(a)[|x|..] == Encode(b[1..]);
      EncodeInjective(a[1..], b[1..]);
      assert a == [a[0]] + a[1..] && b == [b[0]] + b[1..];
    }
  }

  lemma {:induction false} EncodeConcat(a: string, b: string)
    ensures Encode(a + b) == Encode(a) + Encode(b)
    decreases |a|
  {
    if a == [] {
      assert a + b == b;
    } else {
      assert (a + b)[1..] == a[1..] + b;
      EncodeConcat(a[1..], b);
    }
  }

  lemma EncodePrefix(text: string, k: nat)
    requires k <= |text|
    ensures Encode(text) == Encode(text[..k]) + Encode(text[k..])
  {
    assert text == text[..k] + text[k..];
    EncodeConcat(text[..k], text[k..]);
  }

  /** A byte position that does not point into a character is the length of some prefix. */
  lemma {:induction false} AlignedIsPrefix(text: string, p: nat) returns (k: nat)
    requires p <= ByteLength(text) && (p == ByteLength(text) || !IsContinuation(Encode(text)[p]))
    ensures k <= |text| && p == ByteLength(text[..k])
    decreases |text|
  {
    if p == 0 {
      k := 0;
    } else {
      var n := |EncodeChar(text[0])|;
      assert forall i :: 0 <= i < n ==> Encode(text)[i] == EncodeChar(text[0])[i];
      k := AlignedIsPrefix(text[1..], p - n);
      k := k + 1;
      assert text[..k][1..] == text[1..][..k - 1];
    }
  }

  /** Every prefix ends where a character starts. */
  lemma PrefixIsAligned(text: string, k: nat)
    requires k < |text|
    ensures ByteLength(text[..k]) < ByteLength(text) && !IsContinuation(Encode(text)[ByteLength(text[..k])])
  {
    EncodePrefix(text, k);
    assert Encode(text[k..]) == EncodeChar(text[k]) + Encode(text[k..][1..]);
  }

  /** Cuts to at most `maxBytes`, backing up over continuation bytes. */
  method TruncateUtf8(value: Bytes, maxBytes: nat) returns (cut: Bytes)
    ensures cut <= value && (|value| <= maxBytes ==> cut == value)
    ensures |value| > maxBytes ==> BackedUp(value, maxBytes, |cut|)
  {
    if |value| <= maxBytes {
      return value;
    }
    var at := maxBytes;
    while at > 0 && IsContinuation(value[at])
      invariant 0 <= at <= maxBytes && forall i :: at < i <= maxBytes ==> IsContinuation(value[i])
    {
      at := at - 1;
    }
    return value[..at];
  }

  ghost predicate BackedUp(value: Bytes, maxBytes: nat, at: nat)
    requires maxBytes < |value|
  {
    && at <= maxBytes && (at == 0 || !IsContinuation(value[at]))
    && forall i :: at < i <= maxBytes ==> IsContinuation(value[i])
  }

  /** `k` characters fit in the limit and no longer prefix does. */
  ghost predicate LongestFit(text: string, maxBytes: nat, k: nat) {
    && k <= |text| && ByteLength(text[..k]) <= maxBytes
    && forall j :: k < j <= |text| ==> ByteLength(text[..j]) > maxBytes
  }

  /** Truncating valid UTF-8 keeps the longest prefix of whole characters that fits. */
  lemma TruncationIsLongestFit(text: string, maxBytes: nat, cut: Bytes) returns (k: nat)
    requires cut <= Encode(text)
    requires ByteLength(text) <= maxBytes ==> cut == Encode(text)
    requires ByteLength(text) > maxBytes ==> BackedUp(Encode(text), maxBytes, |cut|)
    ensures LongestFit(text, maxBytes, k) && cut == Encode(text[..k])
    ensures ByteLength(text) > maxBytes ==> |cut| + 3 >= maxBytes
  {
    if ByteLength(text) <= maxBytes {
      k := |text|;
      assert text[..k] == text;
    } else {
      k := AlignedIsPrefix(text, |cut|);
      EncodePrefix(text, k);
      assert text[..|text|] == text;
      forall j | k < j <= |text|
        ensures ByteLength(text[..j]) > maxBytes
      {
        assert text[..j][..k] == text[..k] && text[..j][k..] != [];
        EncodePrefix(text[..j], k);
        if j < |text| {
          PrefixIsAligned(text, j);
        } else {
          assert text[..j] == text;
        }
      }
      var next := text[..k + 1];
      assert next[..k] == text[..k] && next[k..] == [text[k]];
      EncodePrefix(next, k);
      assert [text[k]][1..] == [];
    }
  }
}
